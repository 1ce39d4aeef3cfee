/** What the tree of invocations means in terms of the events themselves. */
module EventTree {
  import opened Wrappers
  import opened Sequences
  import opened Trace
  import opened Events
  import opened Script
  import opened Runs
  import opened Invocation
  import opened CallTree
  import opened EventSpans
  import opened Agreement

  // ---------- What an invocation records ----------

  /** The invocation says what the call event says, except for its gas limit and read-only flag. */
  predicate RecordsCall(x: InvocationTrace, call: ExecutionEvent) {
    && call.Call?
    && x.from == call.from && x.to == call.to && x.methodNum == call.methodNum
    && x.params == call.params && x.value == call.value
  }

  /** The invocation says how the call ended; of an error it only keeps that there was one. */
  predicate RecordsReturn(x: InvocationTrace, ret: ExecutionEvent) {
    && Returns(ret)
    && (ret.CallReturn? ==> x.returnValue == ret.returnValue && x.exitCode == ret.exitCode)
    && (ret.CallError? ==> x.returnValue == None && x.exitCode == SYS_ASSERTION_FAILED != EXIT_OK)
    && x.errorNumber == None
  }

  /** The invocation stands for a call with its return and for the calls in between. */
  predicate StandsFor(x: InvocationTrace, call: ExecutionEvent, body: ExecutionTrace, ret: ExecutionEvent) {
    RecordsCall(x, call) && RecordsReturn(x, ret) && Size(x) == 1 + CallsMade(body)
  }

  /**
   The nodes mirror a call and its return: the invocation made by a call has as many nodes before it as
   there are earlier calls, says what the call and its return say, and has below it exactly the calls made
   before that return.
   */
  ghost predicate Mirrored(t: ExecutionTrace, p: nat, q: nat, nodes: seq<InvocationTrace>) {
    && ReturnsAt(t, p, q)
    && CallsMade(t[..p]) < |nodes|
    && StandsFor(nodes[CallsMade(t[..p])], t[p], t[p + 1..q], t[q])
  }

  // ---------- Stretches of a trace ----------

  lemma {:induction false} NoBracketsNoCallEvents(t: ExecutionTrace)
    requires Brackets(t) == []
    ensures CallsMade(t) == 0 && CallDepth(t) == 0
    ensures forall i | 0 <= i < |t| :: !t[i].Call? && !Returns(t[i])
  {
    if t != [] {
      NoBracketsNoCallEvents(ButLast(t));
      Unsnoc(t);
      BracketsSnoc(ButLast(t), Last(t));
      assert BracketOf(Last(t)) == [];
    }
  }

  lemma {:induction false} CallsMadeAreEntered(t: ExecutionTrace)
    ensures CallsMade(t) == Enters(Brackets(t))
  {
    if t != [] {
      var v, e := ButLast(t), Last(t);
      CallsMadeAreEntered(v);
      BracketsSnoc(v, e);
      EntersConcat(Brackets(v), BracketOf(e));
      Unsnoc(t);
      if BracketOf(e) != [] {
        EntersOne(BracketOf(e)[0]);
      }
    }
  }

  /** A trace that prints a forest makes one call per invocation. */
  lemma CallsOfForest(t: ExecutionTrace, xs: seq<InvocationTrace>)
    requires Brackets(t) == PrintAll(xs)
    ensures CallsMade(t) == SizeAll(xs) && CallDepth(t) == 0 && CallsStayOpen(t)
  {
    CallsMadeAreEntered(t);
    EntersPrinted(xs);
    CallsReturn(t, xs);
    CallDepthIsNet(t);
    CallsStayOpenMeaning(t);
  }

  /** A call and its return in a stretch of a trace are a call and its return of the trace. */
  lemma {:induction false} ReturnInStretch(t: ExecutionTrace, a: ExecutionTrace, w: ExecutionTrace,
                                           b: ExecutionTrace, p: nat, q: nat)
    requires t == a + w + b && ReturnsAt(w, p, q)
    ensures ReturnsAt(t, |a| + p, |a| + q)
    ensures t[|a| + p] == w[p] && t[|a| + q] == w[q] && t[|a| + p + 1..|a| + q] == w[p + 1..q]
    ensures CallsMade(t[..|a| + p]) == CallsMade(a) + CallsMade(w[..p])
  {
    SliceOfMiddle(a, w, b, p + 1, q);
    PrefixUpTo(a, w, b, p);
    DepthConcatenates(a, w[..p]);
  }

  // ---------- Every call has its invocation ----------

  lemma CallsBefore(pre: ExecutionTrace, call: ExecutionEvent)
    requires Brackets(pre) == [] && call.Call?
    ensures CallsMade(pre + [call]) == 1
  {
    NoBracketsNoCallEvents(pre);
    Snoc(pre, call);
  }

  lemma CallsUpTo(pre: ExecutionTrace, call: ExecutionEvent, body: ExecutionTrace, ret: ExecutionEvent,
                  ys: seq<InvocationTrace>)
    requires Brackets(pre) == [] && call.Call? && Returns(ret) && Brackets(body) == PrintAll(ys)
    ensures CallsMade(pre + [call] + body + [ret]) == 1 + SizeAll(ys)
  {
    CallsBefore(pre, call);
    CallsOfForest(body, ys);
    DepthConcatenates(pre + [call], body);
    Snoc(pre + [call] + body, ret);
  }

  lemma SaidByBrackets(x: InvocationTrace, call: ExecutionEvent, ret: ExecutionEvent)
    requires BracketOf(call) == [EnterOf(x)] && BracketOf(ret) == [Leave(x.returnValue, x.exitCode)]
    requires x.errorNumber == None
    ensures RecordsCall(x, call) && RecordsReturn(x, ret)
  {
    assert BracketOf(call)[0] == EnterOf(x) && BracketOf(ret)[0] == Leave(x.returnValue, x.exitCode);
  }

  /** The first call of a trace that prints a tree followed by others. */
  lemma {:induction false} FirstCallMirrored(
    t: ExecutionTrace, x: InvocationTrace, nodes: seq<InvocationTrace>, pre: ExecutionTrace,
    call: ExecutionEvent, body: ExecutionTrace, ret: ExecutionEvent, rest: ExecutionTrace)
    requires nodes != [] && nodes[0] == x
    requires t == pre + [call] + body + [ret] + rest
    requires Brackets(pre) == [] && Brackets(body) == PrintAll(x.subinvocations)
    requires BracketOf(call) == [EnterOf(x)] && BracketOf(ret) == [Leave(x.returnValue, x.exitCode)]
    requires x.errorNumber == None
    ensures Mirrored(t, |pre|, |pre| + 1 + |body|, nodes)
  {
    CutAtTwo(pre, call, body, ret, rest, t);
    NoBracketsNoCallEvents(pre);
    CallsOfForest(body, x.subinvocations);
    SaidByBrackets(x, call, ret);
  }

  /** A stretch mirrored by some nodes of a sequence is mirrored by the sequence. */
  lemma {:induction false} MirroredInside(
    t: ExecutionTrace, a: ExecutionTrace, w: ExecutionTrace, b: ExecutionTrace, p: nat, q: nat,
    before: seq<InvocationTrace>, inner: seq<InvocationTrace>, nodes: seq<InvocationTrace>, p2: nat, q2: nat)
    requires t == a + w + b && Mirrored(w, p, q, inner)
    requires CallsMade(a) == |before| && before + inner <= nodes && p2 == |a| + p && q2 == |a| + q
    ensures Mirrored(t, p2, q2, nodes)
  {
    ReturnInStretch(t, a, w, b, p, q);
    var j := CallsMade(w[..p]);
    assert nodes[|before| + j] == (before + inner)[|before| + j] == inner[j];
  }

  lemma PreOrderParts(xs: seq<InvocationTrace>, first: seq<InvocationTrace>, others: seq<InvocationTrace>,
                      nodes: seq<InvocationTrace>)
    requires xs != [] && first == PreOrder(xs[0].subinvocations) && others == PreOrder(xs[1..])
    requires nodes == PreOrder(xs)
    ensures |first| == SizeAll(xs[0].subinvocations) && nodes == [xs[0]] + first + others && nodes[0] == xs[0]
    ensures [xs[0]] + first <= nodes && |[xs[0]] + first| == Size(xs[0])
  {
  }

  lemma WithoutErrorNumbers(xs: seq<InvocationTrace>)
    requires xs != [] && AllWithoutErrorNumbers(xs)
    ensures xs[0].errorNumber == None
    ensures AllWithoutErrorNumbers(xs[0].subinvocations) && AllWithoutErrorNumbers(xs[1..])
  {
    assert NoErrorNumbers(xs[0]);
  }

  /** The first call of a forest, the stretch in which its callees run, and the stretch after its return. */
  lemma {:induction false} SplitForest(t: ExecutionTrace, xs: seq<InvocationTrace>, nodes: seq<InvocationTrace>)
    returns (head: ExecutionTrace, body: ExecutionTrace, tail: ExecutionTrace,
        upto: ExecutionTrace, rest: ExecutionTrace)
    requires Brackets(t) == PrintAll(xs) && xs != [] && xs[0].errorNumber == None
    requires nodes != [] && nodes[0] == xs[0]
    ensures t == head + body + tail && Brackets(body) == PrintAll(xs[0].subinvocations) && CallsMade(head) == 1
    ensures t == upto + rest + [] && Brackets(rest) == PrintAll(xs[1..]) && CallsMade(upto) == Size(xs[0])
    ensures |head| > 0 && |upto| == |head| + |body| + 1
    ensures Mirrored(t, |head| - 1, |head| + |body|, nodes)
    ensures forall i | 0 <= i < |t| && t[i].Call? :: i >= |head| - 1 && i != |head| + |body|
  {
    var pre, call, ret;
    pre, call, body, ret, rest := SplitFirstTree(t, xs[0], xs[1..]);
    head, tail, upto := pre + [call], [ret] + rest, pre + [call] + body + [ret];
    CutAtTwo(pre, call, body, ret, rest, t);
    CallsBefore(pre, call);
    CallsUpTo(pre, call, body, ret, xs[0].subinvocations);
    FirstCallMirrored(t, xs[0], nodes, pre, call, body, ret, rest);
    FirstCallIsFirst(t, pre, call, body, ret, rest);
  }

  lemma {:induction false} FirstCallIsFirst(t: ExecutionTrace, pre: ExecutionTrace, call: ExecutionEvent,
                                            body: ExecutionTrace, ret: ExecutionEvent, rest: ExecutionTrace)
    requires t == pre + [call] + body + [ret] + rest && Brackets(pre) == [] && Returns(ret)
    ensures forall i | 0 <= i < |t| && t[i].Call? :: i >= |pre| && i != |pre| + 1 + |body|
  {
    CutAtTwo(pre, call, body, ret, rest, t);
    NoBracketsNoCallEvents(pre);
    assert forall i | 0 <= i < |pre| :: t[..|pre|][i] == t[i];
  }

  lemma InPart(t: ExecutionTrace, a: ExecutionTrace, w: ExecutionTrace, b: ExecutionTrace, p: nat)
    requires t == a + w + b && |a| <= p < |a| + |w|
    ensures w[p - |a|] == t[p]
  {
  }

  /** Every call of a trace that prints a forest returns, and has its invocation in the forest. */
  lemma {:induction false} CallMirrored(t: ExecutionTrace, xs: seq<InvocationTrace>, p: nat,
                                        nodes: seq<InvocationTrace>) returns (q: nat)
    requires Brackets(t) == PrintAll(xs) && AllWithoutErrorNumbers(xs) && nodes == PreOrder(xs)
    requires p < |t| && t[p].Call?
    ensures Mirrored(t, p, q, nodes)
    decreases xs, 1
  {
    if xs == [] {
      NoBracketsNoCallEvents(t);
      assert false;
    } else {
      var callees, others := PreOrder(xs[0].subinvocations), PreOrder(xs[1..]);
      PreOrderParts(xs, callees, others, nodes);
      WithoutErrorNumbers(xs);
      var head, body, tail, upto, rest := SplitForest(t, xs, nodes);
      if p == |head| - 1 {
        q := |head| + |body|;
      } else if p < |head| + |body| {
        q := CalleeMirrored(t, head, body, tail, p, xs[0], callees, nodes);
      } else {
        q := OtherMirrored(t, upto, rest, p, xs[1..], [xs[0]] + callees, others, nodes);
      }
    }
  }

  lemma {:induction false} CalleeMirrored(
    t: ExecutionTrace, head: ExecutionTrace, body: ExecutionTrace, tail: ExecutionTrace, p: nat,
    x: InvocationTrace, callees: seq<InvocationTrace>, nodes: seq<InvocationTrace>) returns (q: nat)
    requires t == head + body + tail && CallsMade(head) == 1 && |head| <= p < |head| + |body| && t[p].Call?
    requires Brackets(body) == PrintAll(x.subinvocations) && AllWithoutErrorNumbers(x.subinvocations)
    requires callees == PreOrder(x.subinvocations) && [x] + callees <= nodes
    ensures Mirrored(t, p, q, nodes)
    decreases x, 0
  {
    InPart(t, head, body, tail, p);
    var r := CallMirrored(body, x.subinvocations, p - |head|, callees);
    q := |head| + r;
    MirroredInside(t, head, body, tail, p - |head|, r, [x], callees, nodes, p, q);
  }

  lemma {:induction false} OtherMirrored(
    t: ExecutionTrace, upto: ExecutionTrace, rest: ExecutionTrace, p: nat, ys: seq<InvocationTrace>,
    before: seq<InvocationTrace>, others: seq<InvocationTrace>, nodes: seq<InvocationTrace>) returns (q: nat)
    requires t == upto + rest + [] && CallsMade(upto) == |before| && |upto| <= p < |upto| + |rest| && t[p].Call?
    requires Brackets(rest) == PrintAll(ys) && AllWithoutErrorNumbers(ys)
    requires others == PreOrder(ys) && before + others <= nodes
    ensures Mirrored(t, p, q, nodes)
    decreases ys, 2
  {
    InPart(t, upto, rest, [], p);
    var r := CallMirrored(rest, ys, p - |upto|, others);
    q := |upto| + r;
    MirroredInside(t, upto, rest, [], p - |upto|, r, before, others, nodes, p, q);
  }

  // ---------- The main results ----------

  /**
   Whenever the conversion returns a tree, the tree has one invocation per call, each call has its return,
   and the j-th call is the j-th invocation in pre-order: same caller, callee, method, parameters and
   value, the exit code and return value of the matching return, and below it exactly the calls made
   before that return.
   */
  lemma TreeMirrorsEvents(t: ExecutionTrace, x: InvocationTrace)
    requires Convert(t) == Success(x)
    ensures |PreOrder([x])| == CallsMade(t)
    ensures forall p | 0 <= p < |t| && t[p].Call? :: exists q :: ReturnsAt(t, p, q)
    ensures forall p: nat, q: nat | ReturnsAt(t, p, q) :: Mirrored(t, p, q, PreOrder([x]))
  {
    PrintAfterParse(t);
    assert [x][1..] == [];
    ConcatNothing(Print(x));
    CallsOfForest(t, [x]);
    forall p | 0 <= p < |t| && t[p].Call? ensures exists q :: ReturnsAt(t, p, q) {
      var q := CallMirrored(t, [x], p, PreOrder([x]));
    }
    forall p: nat, q: nat | ReturnsAt(t, p, q) ensures Mirrored(t, p, q, PreOrder([x])) {
      var r := CallMirrored(t, [x], p, PreOrder([x]));
      ReturnUnique(t, p, q, r);
    }
  }

  ghost predicate NoCallEvents(t: ExecutionTrace) {
    forall i | 0 <= i < |t| :: !t[i].Call? && !Returns(t[i])
  }

  /** The depth by which the conversion's failures are located is calls minus returns. */
  lemma BracketsOfEvents(t: ExecutionTrace)
    ensures Depth(Brackets(t)) == CallDepth(t)
    ensures NeverNegative(Brackets(t)) <==> CallsStayOpen(t)
    ensures Brackets(t) == [] <==> NoCallEvents(t)
  {
    CallNetIsDepth(t);
    CallDepthIsNet(t);
    CallsNeverOverclosed(t);
    CallsStayOpenMeaning(t);
    if Brackets(t) == [] {
      NoBracketsNoCallEvents(t);
    }
    if NoCallEvents(t) {
      NoCallEventsNoBrackets(t);
    }
  }

  lemma {:induction false} NoCallEventsNoBrackets(t: ExecutionTrace)
    requires NoCallEvents(t)
    ensures Brackets(t) == []
  {
    if t != [] {
      assert forall i | 0 <= i < |t| - 1 :: ButLast(t)[i] == t[i];
      NoCallEventsNoBrackets(ButLast(t));
      assert !t[|t| - 1].Call? && !Returns(t[|t| - 1]);
    }
  }

  /** One call, its return, and no call or return before or after them. */
  ghost predicate IsSingleCall(t: ExecutionTrace, p: nat, q: nat) {
    ReturnsAt(t, p, q) && NoCallEvents(t[..p]) && NoCallEvents(t[q + 1..])
  }

  lemma {:induction false} SingleCallBrackets(t: ExecutionTrace, p: nat, q: nat)
    requires IsSingleCall(t, p, q)
    ensures Brackets(t) == BracketOf(t[p]) + Brackets(t[p + 1..q]) + BracketOf(t[q])
  {
    var pre, call, body, ret, rest := t[..p], t[p], t[p + 1..q], t[q], t[q + 1..];
    var middle := [call] + body + [ret];
    assert t == pre + middle + rest;
    BracketsOfEvents(pre);
    BracketsOfEvents(rest);
    BracketsConcat(pre + middle, rest);
    BracketsConcat(pre, middle);
    WrappedBrackets(call, body, ret);
    ConcatNothing(Brackets(middle));
  }

  lemma {:induction false} PiecesOfTree(t: ExecutionTrace, x: InvocationTrace)
    returns (pre: ExecutionTrace, call: ExecutionEvent, body: ExecutionTrace, ret: ExecutionEvent, rest: ExecutionTrace)
    requires Brackets(t) == Print(x)
    ensures t == pre + [call] + body + [ret] + rest && call.Call? && Returns(ret)
    ensures Brackets(pre) == [] && Brackets(body) == PrintAll(x.subinvocations) && Brackets(rest) == []
  {
    ConcatNothing(Print(x));
    pre, call, body, ret, rest := SplitFirstTree(t, x, []);
  }

  lemma {:induction false} TreeIsSingleCall(t: ExecutionTrace, x: InvocationTrace)
    requires Brackets(t) == Print(x)
    ensures exists p: nat, q: nat :: IsSingleCall(t, p, q)
  {
    var pre, call, body, ret, rest := PiecesOfTree(t, x);
    NoBracketsNoCallEvents(pre);
    NoBracketsNoCallEvents(rest);
    CallsOfForest(body, x.subinvocations);
    SingleCallOfPieces(t, pre, call, body, ret, rest);
  }

  lemma {:induction false} SingleCallOfPieces(t: ExecutionTrace, pre: ExecutionTrace, call: ExecutionEvent,
                                              body: ExecutionTrace, ret: ExecutionEvent, rest: ExecutionTrace)
    requires t == pre + [call] + body + [ret] + rest && call.Call? && Returns(ret)
    requires NoCallEvents(pre) && NoCallEvents(rest) && CallDepth(body) == 0 && CallsStayOpen(body)
    ensures IsSingleCall(t, |pre|, |pre| + 1 + |body|)
  {
    CutAtTwo(pre, call, body, ret, rest, t);
  }

  lemma {:induction false} SingleCallIsOneCall(t: ExecutionTrace, p: nat, q: nat)
    requires IsSingleCall(t, p, q)
    ensures IsOneCall(Brackets(t))
  {
    SingleCallBrackets(t, p, q);
    BracketsOfEvents(t[p + 1..q]);
    WrappedIsOneCall(BracketOf(t[p])[0], Brackets(t[p + 1..q]), BracketOf(t[q])[0]);
  }

  /** The conversion returns a tree exactly for traces that are a single call. */
  lemma AcceptsSingleCalls(t: ExecutionTrace)
    ensures Convert(t).Success? <==> exists p: nat, q: nat :: IsSingleCall(t, p, q)
  {
    if Convert(t).Success? {
      PrintAfterParse(t);
      TreeIsSingleCall(t, Convert(t).value);
    }
    if p: nat, q: nat :| IsSingleCall(t, p, q) {
      SingleCallIsOneCall(t, p, q);
      ConversionLanguage(t);
    }
  }

  /**
   Both machines on the same events: if the conversion returns a tree and no span end is unmatched, the
   analysis completes (when the gas fits), and every call has a span and an invocation that both tell its
   caller, callee and method, the span holding the gas charged until the return that the invocation records.
   */
  lemma SameEvents(t: ExecutionTrace, x: InvocationTrace)
    requires Convert(t) == Success(x)
    requires forall name: string :: LabelStaysOpen(t, name)
    ensures Analysable(t) && Outcome(t) == Success(SpansOf(FullScript(t)))
    ensures forall p: nat, q: nat | ReturnsAt(t, p, q) ::
              Mirrored(t, p, q, PreOrder([x])) && CallReported(t, p, q, SpansOf(FullScript(t)))
  {
    PrintAfterParse(t);
    ConcatNothing(Print(x));
    assert [x][1..] == [];
    CallsOfForest(t, [x]);
    BracketsMeaning(t);
    AnalysisMeasures(t);
    SpansAreReported(t);
    TreeMirrorsEvents(t, x);
  }
}
