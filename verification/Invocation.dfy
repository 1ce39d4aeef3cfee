/** Turning a flat execution trace into a tree of invocations. */
module Invocation {
  import opened Wrappers
  import opened Sequences
  import opened Trace

  datatype InvocationTrace = InvocationTrace(
    from: ActorID, to: Address, methodNum: MethodNum, params: Option<IpldBlock>, value: TokenAmount,
    exitCode: ExitCode, returnValue: Option<IpldBlock>,
    subinvocations: seq<InvocationTrace>, errorNumber: Option<ErrorNumber>)

  datatype ConversionPanic =
    | UnmatchedCallReturn
    | UnmatchedCallError
    | MultipleRoots
    | LeftoverInvocations
    | MissingRoot

  // ---------- Printing ----------

  /** What the conversion keeps of a call event and of its return. */
  datatype Bracket =
    | Enter(from: ActorID, to: Address, methodNum: MethodNum, params: Option<IpldBlock>, value: TokenAmount)
    | Leave(returnValue: Option<IpldBlock>, exitCode: ExitCode)

  /** Gas limit, read-only flag and the details of an error are dropped; an error becomes a failed return. */
  function BracketOf(e: ExecutionEvent): seq<Bracket> {
    match e
    case Call(from, to, methodNum, params, value, _, _) => [Enter(from, to, methodNum, params, value)]
    case CallReturn(returnValue, exitCode) => [Leave(returnValue, exitCode)]
    case CallError(_, _) => [Leave(None, SYS_ASSERTION_FAILED)]
    case _ => []
  }

  function Brackets(t: ExecutionTrace): seq<Bracket> {
    if t == [] then [] else Brackets(t[..|t| - 1]) + BracketOf(t[|t| - 1])
  }

  function EnterOf(x: InvocationTrace): Bracket {
    Enter(x.from, x.to, x.methodNum, x.params, x.value)
  }

  function Print(x: InvocationTrace): seq<Bracket>
    decreases x, 0
  {
    [EnterOf(x)] + PrintAll(x.subinvocations) + [Leave(x.returnValue, x.exitCode)]
  }

  function PrintAll(xs: seq<InvocationTrace>): seq<Bracket>
    decreases xs, 1
  {
    if xs == [] then [] else Print(xs[0]) + PrintAll(xs[1..])
  }

  /** Error numbers are never filled in. */
  predicate NoErrorNumbers(x: InvocationTrace) {
    x.errorNumber == None && forall i | 0 <= i < |x.subinvocations| :: NoErrorNumbers(x.subinvocations[i])
  }

  predicate AllWithoutErrorNumbers(xs: seq<InvocationTrace>) {
    forall i | 0 <= i < |xs| :: NoErrorNumbers(xs[i])
  }

  /** The tree says what the trace says, as far as a tree can. */
  ghost predicate Depicts(x: InvocationTrace, t: ExecutionTrace) {
    NoErrorNumbers(x) && Print(x) == Brackets(t)
  }

  // ---------- The accepted language ----------

  function DepthOf(b: Bracket): int {
    if b.Enter? then 1 else -1
  }

  function Depth(s: seq<Bracket>): int {
    if s == [] then 0 else Depth(s[..|s| - 1]) + DepthOf(s[|s| - 1])
  }

  /** One call: the depth is positive throughout and returns to zero at the very end. */
  ghost predicate IsOneCall(s: seq<Bracket>) {
    s != [] && Depth(s) == 0 && forall k | 0 < k < |s| :: Depth(s[..k]) > 0
  }

  lemma {:induction false} DepthConcat(a: seq<Bracket>, b: seq<Bracket>)
    ensures Depth(a + b) == Depth(a) + Depth(b)
  {
    if b == [] {
      ConcatNothing(a);
    } else {
      DepthConcat(a, b[..|b| - 1]);
      Unsnoc2(a, b);
      Snoc(a + b[..|b| - 1], b[|b| - 1]);
    }
  }

  lemma DepthOne(b: Bracket)
    ensures Depth([b]) == DepthOf(b)
  {
    assert [b][..0] == [];
  }

  lemma {:induction false} PrintIsOneCall(x: InvocationTrace)
    ensures IsOneCall(Print(x))
    decreases x, 0
  {
    var enter, body, leave := [EnterOf(x)], PrintAll(x.subinvocations), [Leave(x.returnValue, x.exitCode)];
    PrintAllStaysUp(x.subinvocations);
    DepthOne(enter[0]);
    DepthOne(leave[0]);
    DepthConcat(enter, body);
    DepthConcat(enter + body, leave);
    forall k | 0 < k < |Print(x)| ensures Depth(Print(x)[..k]) > 0 {
      assert Print(x)[..k] == enter + body[..k - 1];
      DepthConcat(enter, body[..k - 1]);
    }
  }

  lemma {:induction false} PrintAllStaysUp(xs: seq<InvocationTrace>)
    ensures Depth(PrintAll(xs)) == 0
    ensures forall k | 0 <= k <= |PrintAll(xs)| :: Depth(PrintAll(xs)[..k]) >= 0
    decreases xs, 1
  {
    if xs != [] {
      var head, tail := Print(xs[0]), PrintAll(xs[1..]);
      PrintIsOneCall(xs[0]);
      PrintAllStaysUp(xs[1..]);
      DepthConcat(head, tail);
      forall k | 0 <= k <= |head + tail| ensures Depth((head + tail)[..k]) >= 0 {
        if k <= |head| {
          assert (head + tail)[..k] == head[..k];
          assert head[..|head|] == head;
          assert k == 0 ==> head[..k] == [];
        } else {
          assert (head + tail)[..k] == head + tail[..k - |head|];
          DepthConcat(head, tail[..k - |head|]);
        }
      }
    }
  }

  // ---------- A printed tree determines the tree ----------

  lemma {:induction false} PrintInjective(x: InvocationTrace, y: InvocationTrace, u: seq<Bracket>, v: seq<Bracket>)
    requires NoErrorNumbers(x) && NoErrorNumbers(y)
    requires Print(x) + u == Print(y) + v
    ensures x == y && u == v
    decreases x, 0
  {
    var xs, ys := x.subinvocations, y.subinvocations;
    var u1, v1 := [Leave(x.returnValue, x.exitCode)] + u, [Leave(y.returnValue, y.exitCode)] + v;
    assert Print(x) + u == [EnterOf(x)] + (PrintAll(xs) + u1);
    assert Print(y) + v == [EnterOf(y)] + (PrintAll(ys) + v1);
    assert (Print(x) + u)[0] == EnterOf(x) && (Print(y) + v)[0] == EnterOf(y);
    assert (Print(x) + u)[1..] == PrintAll(xs) + u1 && (Print(y) + v)[1..] == PrintAll(ys) + v1;
    PrintAllInjective(xs, ys, u1, v1);
    assert u1[0] == v1[0] && u1[1..] == u && v1[1..] == v;
  }

  lemma {:induction false} PrintAllInjective(xs: seq<InvocationTrace>, ys: seq<InvocationTrace>,
                                             u: seq<Bracket>, v: seq<Bracket>)
    requires AllWithoutErrorNumbers(xs) && AllWithoutErrorNumbers(ys)
    requires u != [] && u[0].Leave? && v != [] && v[0].Leave?
    requires PrintAll(xs) + u == PrintAll(ys) + v
    ensures xs == ys && u == v
    decreases xs, 1
  {
    assert (PrintAll(xs) + u)[0].Enter? == (xs != []);
    assert (PrintAll(ys) + v)[0].Enter? == (ys != []);
    if xs != [] {
      var u1, v1 := PrintAll(xs[1..]) + u, PrintAll(ys[1..]) + v;
      assert PrintAll(xs) + u == Print(xs[0]) + u1 && PrintAll(ys) + v == Print(ys[0]) + v1;
      PrintInjective(xs[0], ys[0], u1, v1);
      PrintAllInjective(xs[1..], ys[1..], u, v);
      assert xs == [xs[0]] + xs[1..] && ys == [ys[0]] + ys[1..];
    } else {
      assert PrintAll(xs) + u == u && PrintAll(ys) + v == v;
    }
  }

  /** At most one tree depicts a trace. */
  lemma DepictionUnique(x: InvocationTrace, y: InvocationTrace, t: ExecutionTrace)
    requires Depicts(x, t) && Depicts(y, t)
    ensures x == y
  {
    PrintInjective(x, y, [], []);
  }

  lemma {:induction false} PrintAllSnoc(xs: seq<InvocationTrace>, x: InvocationTrace)
    ensures PrintAll(xs + [x]) == PrintAll(xs) + Print(x)
  {
    if xs == [] {
      assert xs + [x] == [x] && [x][1..] == [];
    } else {
      assert (xs + [x])[1..] == xs[1..] + [x];
      PrintAllSnoc(xs[1..], x);
    }
  }

  // ---------- The conversion as a transition system ----------

  datatype Progress = Progress(stack: seq<InvocationTrace>, root: Option<InvocationTrace>)

  function Begin(from: ActorID, to: Address, methodNum: MethodNum, params: Option<IpldBlock>, value: TokenAmount)
    : InvocationTrace
  {
    InvocationTrace(from, to, methodNum, params, value, EXIT_OK, None, [], None)
  }

  function WithChild(x: InvocationTrace, child: InvocationTrace): InvocationTrace {
    x.(subinvocations := x.subinvocations + [child])
  }

  /** Hands a finished invocation to its caller, or makes it the root. */
  function Complete(stack: seq<InvocationTrace>, root: Option<InvocationTrace>, x: InvocationTrace)
    : Result<Progress, ConversionPanic>
  {
    if stack != [] then
      Success(Progress(stack[..|stack| - 1] + [WithChild(stack[|stack| - 1], x)], root))
    else if root.Some? then Failure(MultipleRoots)
    else Success(Progress([], Some(x)))
  }

  function Advance(p: Progress, e: ExecutionEvent): Result<Progress, ConversionPanic> {
    match e
    case Call(from, to, methodNum, params, value, _, _) =>
      Success(p.(stack := p.stack + [Begin(from, to, methodNum, params, value)]))
    case CallReturn(returnValue, exitCode) =>
      if p.stack == [] then Failure(UnmatchedCallReturn) else
      var n := |p.stack| - 1;
      Complete(p.stack[..n], p.root, p.stack[n].(exitCode := exitCode, returnValue := returnValue))
    case CallError(_, _) =>
      if p.stack == [] then Failure(UnmatchedCallError) else
      var n := |p.stack| - 1;
      Complete(p.stack[..n], p.root, p.stack[n].(exitCode := SYS_ASSERTION_FAILED))
    case _ => Success(p)
  }

  function ProgressAfter(t: ExecutionTrace): Result<Progress, ConversionPanic> {
    if t == [] then Success(Progress([], None)) else
    var before := ProgressAfter(t[..|t| - 1]);
    if before.Failure? then before else Advance(before.value, t[|t| - 1])
  }

  function Convert(t: ExecutionTrace): Result<InvocationTrace, ConversionPanic> {
    var end := ProgressAfter(t);
    if end.Failure? then Failure(end.error)
    else if end.value.stack != [] then Failure(LeftoverInvocations)
    else if end.value.root.None? then Failure(MissingRoot)
    else Success(end.value.root.value)
  }

  // ---------- What has been read is what has been printed ----------

  /** An invocation whose return has not been read yet: placeholders and finished children. */
  predicate Unfinished(x: InvocationTrace) {
    x.exitCode == EXIT_OK && x.returnValue == None && NoErrorNumbers(x)
  }

  function PrintOpen(x: InvocationTrace): seq<Bracket> {
    [EnterOf(x)] + PrintAll(x.subinvocations)
  }

  function PrintStack(stack: seq<InvocationTrace>): seq<Bracket> {
    if stack == [] then [] else PrintStack(stack[..|stack| - 1]) + PrintOpen(stack[|stack| - 1])
  }

  function PrintRoot(root: Option<InvocationTrace>): seq<Bracket> {
    if root.Some? then Print(root.value) else []
  }

  ghost predicate HasRead(p: Progress, s: seq<Bracket>) {
    && (p.root.Some? ==> NoErrorNumbers(p.root.value))
    && (forall i | 0 <= i < |p.stack| :: Unfinished(p.stack[i]))
    && s == PrintRoot(p.root) + PrintStack(p.stack)
  }

  lemma PrintStackSnoc(stack: seq<InvocationTrace>, x: InvocationTrace)
    ensures PrintStack(stack + [x]) == PrintStack(stack) + PrintOpen(x)
  {
    Snoc(stack, x);
  }

  lemma CallRead(p: Progress, s: seq<Bracket>, x: InvocationTrace)
    requires HasRead(p, s) && Unfinished(x) && x.subinvocations == []
    ensures HasRead(p.(stack := p.stack + [x]), s + [EnterOf(x)])
  {
    PrintStackSnoc(p.stack, x);
    assert PrintOpen(x) == [EnterOf(x)];
  }

  /** Handing over a finished invocation prints it after everything read before. */
  lemma {:induction false} CompletePrints(rest: seq<InvocationTrace>, root: Option<InvocationTrace>, x: InvocationTrace)
    requires Complete(rest, root, x).Success?
    ensures var next := Complete(rest, root, x).value;
            PrintRoot(next.root) + PrintStack(next.stack) == PrintRoot(root) + PrintStack(rest) + Print(x)
  {
    if rest != [] {
      var lower, caller := rest[..|rest| - 1], rest[|rest| - 1];
      PrintAllSnoc(caller.subinvocations, x);
      PrintStackSnoc(lower, WithChild(caller, x));
      assert PrintOpen(WithChild(caller, x)) == PrintOpen(caller) + Print(x);
    }
  }

  lemma PrintClosed(top: InvocationTrace, x: InvocationTrace)
    requires x == top.(exitCode := x.exitCode, returnValue := x.returnValue)
    ensures PrintOpen(top) + [Leave(x.returnValue, x.exitCode)] == Print(x)
  {
  }

  lemma ReturnPrints(s: seq<Bracket>, root: Option<InvocationTrace>, rest: seq<InvocationTrace>,
                     top: InvocationTrace, x: InvocationTrace)
    requires s == PrintRoot(root) + PrintStack(rest + [top])
    requires x == top.(exitCode := x.exitCode, returnValue := x.returnValue)
    ensures s + [Leave(x.returnValue, x.exitCode)] == PrintRoot(root) + PrintStack(rest) + Print(x)
  {
    PrintStackSnoc(rest, top);
    PrintClosed(top, x);
    Associate(PrintRoot(root), PrintStack(rest), PrintOpen(top));
    Associate(PrintRoot(root) + PrintStack(rest), PrintOpen(top), [Leave(x.returnValue, x.exitCode)]);
  }

  lemma {:induction false} ReturnRead(p: Progress, s: seq<Bracket>, rest: seq<InvocationTrace>,
                   top: InvocationTrace, x: InvocationTrace)
    requires HasRead(p, s) && p.stack == rest + [top]
    requires x == top.(exitCode := x.exitCode, returnValue := x.returnValue)
    requires Complete(rest, p.root, x).Success?
    ensures HasRead(Complete(rest, p.root, x).value, s + [Leave(x.returnValue, x.exitCode)])
  {
    ReturnPrints(s, p.root, rest, top, x);
    CompletePrints(rest, p.root, x);
    assert forall i | 0 <= i < |rest| :: rest[i] == p.stack[i];
    assert top == p.stack[|rest|];
    assert NoErrorNumbers(x);
    if rest != [] {
      assert Unfinished(WithChild(rest[|rest| - 1], x));
    }
  }

  lemma AdvanceReads(p: Progress, s: seq<Bracket>, e: ExecutionEvent)
    requires HasRead(p, s) && Advance(p, e).Success?
    ensures HasRead(Advance(p, e).value, s + BracketOf(e))
  {
    if e.CallReturn? || e.CallError? {
      var rest, top := p.stack[..|p.stack| - 1], p.stack[|p.stack| - 1];
      assert p.stack == rest + [top];
      var x := if e.CallReturn? then top.(exitCode := e.exitCode, returnValue := e.returnValue)
               else top.(exitCode := SYS_ASSERTION_FAILED);
      ReturnRead(p, s, rest, top, x);
    } else if e.Call? {
      CallRead(p, s, Begin(e.from, e.to, e.methodNum, e.params, e.value));
    } else {
      assert s + BracketOf(e) == s;
    }
  }

  lemma {:induction false} ProgressReads(t: ExecutionTrace)
    requires ProgressAfter(t).Success?
    ensures HasRead(ProgressAfter(t).value, Brackets(t))
  {
    if t != [] {
      var before, e := t[..|t| - 1], t[|t| - 1];
      ProgressReads(before);
      AdvanceReads(ProgressAfter(before).value, Brackets(before), e);
    }
  }

  // ---------- Failures leave the language ----------

  lemma {:induction false} PrintStackDepth(stack: seq<InvocationTrace>)
    ensures Depth(PrintStack(stack)) == |stack|
  {
    if stack != [] {
      var x := stack[|stack| - 1];
      PrintStackDepth(stack[..|stack| - 1]);
      PrintAllStaysUp(x.subinvocations);
      DepthOne(EnterOf(x));
      DepthConcat([EnterOf(x)], PrintAll(x.subinvocations));
      DepthConcat(PrintStack(stack[..|stack| - 1]), PrintOpen(x));
    }
  }

  lemma ReadDepth(p: Progress, s: seq<Bracket>)
    requires HasRead(p, s)
    ensures Depth(s) == |p.stack|
    ensures p.root.Some? && p.stack != [] ==> exists k :: 0 < k < |s| && Depth(s[..k]) == 0
  {
    PrintStackDepth(p.stack);
    DepthConcat(PrintRoot(p.root), PrintStack(p.stack));
    if p.root.Some? {
      var k := |PrintRoot(p.root)|;
      PrintIsOneCall(p.root.value);
      assert s[..k] == PrintRoot(p.root);
      assert p.stack != [] ==> PrintStack(p.stack) != [];
    }
  }

  lemma BracketsSnoc(t: ExecutionTrace, e: ExecutionEvent)
    ensures Brackets(t + [e]) == Brackets(t) + BracketOf(e)
  {
    Snoc(t, e);
  }

  lemma BracketsConcatStep(a: ExecutionTrace, v: ExecutionTrace, w: ExecutionTrace, e: ExecutionEvent)
    requires Brackets(w) == Brackets(a) + Brackets(v)
    ensures Brackets(w + [e]) == Brackets(a) + Brackets(v + [e])
  {
    BracketsSnoc(w, e);
    BracketsSnoc(v, e);
    Associate(Brackets(a), Brackets(v), BracketOf(e));
  }

  lemma {:induction false} BracketsConcat(a: ExecutionTrace, b: ExecutionTrace)
    ensures Brackets(a + b) == Brackets(a) + Brackets(b)
  {
    if b == [] {
      ConcatNothing(a);
    } else {
      var v, e := b[..|b| - 1], b[|b| - 1];
      assert Brackets(a + (v + [e])) == Brackets(a) + Brackets(v + [e]) by {
        BracketsConcat(a, v);
        BracketsConcatStep(a, v, a + v, e);
        Associate(a, v, [e]);
      }
      Unsnoc(b);
    }
  }

  lemma NegativeOutside(s: seq<Bracket>, more: seq<Bracket>)
    requires s != [] && Depth(s) < 0
    ensures !IsOneCall(s + more)
  {
    assert (s + more)[..|s|] == s;
    if more == [] {
      assert s + more == s;
    }
  }

  lemma TwoRootsOutside(s: seq<Bracket>, k: nat, more: seq<Bracket>)
    requires 0 < k < |s| && Depth(s[..k]) == 0
    ensures !IsOneCall(s + more)
  {
    assert (s + more)[..k] == s[..k];
  }

  /** Nothing that extends a prefix on which the conversion fails is one call. */
  lemma {:induction false} FailedStepOutside(p: Progress, s: seq<Bracket>, e: ExecutionEvent, more: seq<Bracket>)
    requires HasRead(p, s) && Advance(p, e).Failure?
    ensures !IsOneCall(s + BracketOf(e) + more)
  {
    ReadDepth(p, s);
    if p.stack != [] {
      var k :| 0 < k < |s| && Depth(s[..k]) == 0;
      TwoRootsOutside(s, k, BracketOf(e) + more);
      Associate(s, BracketOf(e), more);
    } else {
      DepthOne(BracketOf(e)[0]);
      DepthConcat(s, BracketOf(e));
      NegativeOutside(s + BracketOf(e), more);
    }
  }

  lemma {:induction false} FailureOutside(t: ExecutionTrace, more: seq<Bracket>)
    requires ProgressAfter(t).Failure?
    ensures !IsOneCall(Brackets(t) + more)
  {
    var before, e := t[..|t| - 1], t[|t| - 1];
    if ProgressAfter(before).Failure? {
      FailureOutside(before, BracketOf(e) + more);
      assert Brackets(before) + (BracketOf(e) + more) == Brackets(t) + more;
    } else {
      ProgressReads(before);
      FailedStepOutside(ProgressAfter(before).value, Brackets(before), e, more);
    }
  }

  // ---------- The main results ----------

  /** Printing a converted trace gives back the trace's normalised calls and returns. */
  lemma PrintAfterParse(t: ExecutionTrace)
    requires Convert(t).Success?
    ensures Depicts(Convert(t).value, t)
  {
    ProgressReads(t);
  }

  lemma CompleteReadIsOneCall(t: ExecutionTrace)
    requires ProgressAfter(t).Success?
    ensures Convert(t).Success? <==> IsOneCall(Brackets(t))
  {
    var p := ProgressAfter(t).value;
    ProgressReads(t);
    ReadDepth(p, Brackets(t));
    if p.root.Some? {
      PrintIsOneCall(p.root.value);
    }
    assert p.stack == [] ==> Brackets(t) == PrintRoot(p.root);
  }

  /** The conversion accepts exactly the traces whose calls and returns form one call. */
  lemma ConversionLanguage(t: ExecutionTrace)
    ensures Convert(t).Success? <==> IsOneCall(Brackets(t))
  {
    if ProgressAfter(t).Failure? {
      FailureOutside(t, []);
      assert Brackets(t) + [] == Brackets(t);
    } else {
      CompleteReadIsOneCall(t);
    }
  }

  /** Converting any trace that prints a tree, with other events anywhere in between, gives back the tree. */
  lemma ParseAfterPrint(x: InvocationTrace, t: ExecutionTrace)
    requires Depicts(x, t)
    ensures Convert(t) == Success(x)
  {
    PrintIsOneCall(x);
    ConversionLanguage(t);
    PrintAfterParse(t);
    DepictionUnique(x, Convert(t).value, t);
  }

  /** Where and why a conversion stops in the middle of a trace. */
  lemma {:induction false} WhereItStops(t: ExecutionTrace) returns (k: nat)
    requires ProgressAfter(t).Failure?
    ensures k < |t| && ProgressAfter(t[..k]).Success?
    ensures var error, depth := ProgressAfter(t).error, Depth(Brackets(t[..k]));
            && (t[k].CallReturn? || t[k].CallError?)
            && (error == UnmatchedCallReturn <==> t[k].CallReturn? && depth == 0)
            && (error == UnmatchedCallError <==> t[k].CallError? && depth == 0)
            && (error == MultipleRoots <==> depth == 1)
            && (error == MultipleRoots ==>
                  exists m :: 0 < m < |Brackets(t[..k])| && Depth(Brackets(t[..k])[..m]) == 0)
  {
    var v := t[..|t| - 1];
    if ProgressAfter(v).Failure? {
      k := WhereItStops(v);
      assert v[..k] == t[..k];
    } else {
      k := |v|;
      ProgressReads(v);
      ReadDepth(ProgressAfter(v).value, Brackets(v));
    }
  }

  /** A conversion that reads the whole trace fails only if calls are left open, or there were none. */
  lemma WhyItFailsAtTheEnd(t: ExecutionTrace)
    requires ProgressAfter(t).Success? && Convert(t).Failure?
    ensures Convert(t).error == LeftoverInvocations <==> Depth(Brackets(t)) > 0
    ensures Convert(t).error == MissingRoot <==> Brackets(t) == []
  {
    ProgressReads(t);
    ReadDepth(ProgressAfter(t).value, Brackets(t));
  }

  // ---------- The program's loop ----------

  /** Converts a trace into the tree of its invocations. */
  method ToInvocation(trace: ExecutionTrace) returns (r: Result<InvocationTrace, ConversionPanic>)
    ensures r.Success? <==> IsOneCall(Brackets(trace))
    ensures r.Success? ==> Depicts(r.value, trace)
    ensures forall x | Depicts(x, trace) :: r == Success(x)
    ensures r == Convert(trace)
  {
    var stack: seq<InvocationTrace> := [];
    var root: Option<InvocationTrace> := None;
    assert trace[..0] == [];
    for k := 0 to |trace|
      invariant ProgressAfter(trace[..k]) == Success(Progress(stack, root))
    {
      assert trace[..k + 1][..k] == trace[..k];
      ghost var next := Advance(Progress(stack, root), trace[k]);
      if next.Failure? {
        StuckConversion(trace, k + 1);
      }
      match trace[k] {
        case Call(from, to, methodNum, params, value, _, _) =>
          stack := stack + [InvocationTrace(from, to, methodNum, params, value, EXIT_OK, None, [], None)];
        case CallReturn(returnValue, exitCode) =>
          if stack == [] {
            return Failure(UnmatchedCallReturn);
          }
          var current := stack[|stack| - 1];
          stack := stack[..|stack| - 1];
          current := current.(exitCode := exitCode);
          current := current.(returnValue := returnValue);
          if stack != [] {
            var parent := stack[|stack| - 1];
            stack := stack[..|stack| - 1] + [parent.(subinvocations := parent.subinvocations + [current])];
          } else {
            if root.Some? {
              return Failure(MultipleRoots);
            }
            root := Some(current);
          }
        case CallError(_, _) =>
          if stack == [] {
            return Failure(UnmatchedCallError);
          }
          var current := stack[|stack| - 1];
          stack := stack[..|stack| - 1];
          current := current.(exitCode := SYS_ASSERTION_FAILED);
          if stack != [] {
            var parent := stack[|stack| - 1];
            stack := stack[..|stack| - 1] + [parent.(subinvocations := parent.subinvocations + [current])];
          } else {
            if root.Some? {
              return Failure(MultipleRoots);
            }
            root := Some(current);
          }
        case GasCharged(_, _, _) =>
        case InvokeActor(_) =>
        case Log(_) =>
      }
      assert next == Success(Progress(stack, root));
    }
    assert trace[..|trace|] == trace;
    ConversionContract(trace);
    if stack != [] {
      return Failure(LeftoverInvocations);
    }
    if root.None? {
      return Failure(MissingRoot);
    }
    r := Success(root.value);
  }

  lemma ConversionContract(t: ExecutionTrace)
    ensures Convert(t).Success? <==> IsOneCall(Brackets(t))
    ensures Convert(t).Success? ==> Depicts(Convert(t).value, t)
    ensures forall x | Depicts(x, t) :: Convert(t) == Success(x)
  {
    ConversionLanguage(t);
    if Convert(t).Success? {
      PrintAfterParse(t);
    }
    forall x | Depicts(x, t) ensures Convert(t) == Success(x) {
      ParseAfterPrint(x, t);
    }
  }

  lemma {:induction false} StuckConversion(t: ExecutionTrace, k: nat)
    requires k <= |t| && ProgressAfter(t[..k]).Failure?
    ensures Convert(t) == Failure(ProgressAfter(t[..k]).error)
    ensures !IsOneCall(Brackets(t)) && forall x :: !Depicts(x, t)
  {
    StuckProgress(t, k);
    ConversionContract(t);
  }

  lemma {:induction false} StuckProgress(t: ExecutionTrace, k: nat)
    requires k <= |t| && ProgressAfter(t[..k]).Failure?
    ensures ProgressAfter(t) == ProgressAfter(t[..k])
  {
    if k == |t| {
      assert t[..k] == t;
    } else {
      assert t[..|t| - 1][..k] == t[..k];
      StuckProgress(t[..|t| - 1], k);
    }
  }
}
