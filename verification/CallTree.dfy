/** Call spans of a script in the order they are opened, and splitting a trace along its call tree. */
module CallTree {
  import opened Sequences
  import opened GasModel
  import opened Trace
  import opened Script
  import opened Measures
  import opened Invocation

  // ---------- Trees ----------

  function Size(x: InvocationTrace): nat
    decreases x, 0
  {
    1 + SizeAll(x.subinvocations)
  }

  function SizeAll(xs: seq<InvocationTrace>): nat
    decreases xs, 1
  {
    if xs == [] then 0 else Size(xs[0]) + SizeAll(xs[1..])
  }

  lemma SizeFirst(xs: seq<InvocationTrace>)
    requires xs != []
    ensures SizeAll(xs) == Size(xs[0]) + SizeAll(xs[1..]) == 1 + SizeAll(xs[0].subinvocations) + SizeAll(xs[1..])
  {
  }

  /** The invocations of a forest, callers before callees. */
  function PreOrder(xs: seq<InvocationTrace>): (nodes: seq<InvocationTrace>)
    ensures |nodes| == SizeAll(xs)
    decreases xs
  {
    if xs == [] then [] else [xs[0]] + PreOrder(xs[0].subinvocations) + PreOrder(xs[1..])
  }

  /** The j-th invocation in pre-order. */
  function Node(xs: seq<InvocationTrace>, j: nat): InvocationTrace
    requires j < SizeAll(xs)
  {
    PreOrder(xs)[j]
  }

  lemma NodeCases(xs: seq<InvocationTrace>, j: nat)
    requires j < SizeAll(xs)
    ensures xs != [] && Size(xs[0]) == 1 + SizeAll(xs[0].subinvocations)
    ensures SizeAll(xs) == Size(xs[0]) + SizeAll(xs[1..])
    ensures Node(xs, j) == if j == 0 then xs[0]
                           else if j < Size(xs[0]) then Node(xs[0].subinvocations, j - 1)
                           else Node(xs[1..], j - Size(xs[0]))
  {
    SizeFirst(xs);
  }

  // ---------- Call spans ----------

  predicate OpensCall(r: Role) {
    r.Open? && r.key == Calls
  }

  /** Indices of the spans opened by calls. */
  function CallIndices(s: seq<Role>): seq<nat> {
    if s == [] then [] else
    var v := s[..|s| - 1];
    CallIndices(v) + if OpensCall(s[|s| - 1]) then [|Openers(v)|] else []
  }

  lemma CallIndicesSnoc(s: seq<Role>, r: Role)
    ensures CallIndices(s + [r]) == if OpensCall(r) then CallIndices(s) + [|Openers(s)|] else CallIndices(s)
  {
    Snoc(s, r);
  }

  lemma {:induction false} OpenersPrefix(a: seq<Role>, b: seq<Role>)
    ensures Openers(a) <= Openers(a + b) && CallIndices(a) <= CallIndices(a + b)
  {
    if b == [] {
      ConcatNothing(a);
    } else {
      var v, r := b[..|b| - 1], b[|b| - 1];
      OpenersPrefix(a, v);
      Unsnoc2(a, b);
      SnocOpeners(a + v, r);
      CallIndicesSnoc(a + v, r);
    }
  }

  lemma {:induction false} CallCountConcat(a: seq<Role>, b: seq<Role>)
    ensures |CallIndices(a + b)| == |CallIndices(a)| + |CallIndices(b)|
  {
    if b == [] {
      ConcatNothing(a);
    } else {
      var v, r := b[..|b| - 1], b[|b| - 1];
      CallCountConcat(a, v);
      Unsnoc2(a, b);
      CallIndicesSnoc(a + v, r);
    }
  }

  lemma {:induction false} CallIndicesAreCalls(s: seq<Role>, k: nat)
    requires k < |CallIndices(s)|
    ensures CallIndices(s)[k] < |Openers(s)| && KeyOf(s, CallIndices(s)[k]) == Calls
  {
    var v, r := s[..|s| - 1], s[|s| - 1];
    Unsnoc(s);
    CallIndicesSnoc(v, r);
    SnocOpeners(v, r);
    if k < |CallIndices(v)| {
      CallIndicesAreCalls(v, k);
      SnocOpener(v, r, CallIndices(v)[k]);
    }
  }

  /** The call opened after `a`: which span it is, and what follows it. */
  lemma CallOpenedAt(s: seq<Role>, a: seq<Role>, open: Role, y: seq<Role>)
    requires s == a + [open] + y && OpensCall(open)
    ensures |CallIndices(a)| < |CallIndices(s)| && CallIndices(s)[|CallIndices(a)|] == |Openers(a)| < |Openers(s)|
    ensures After(s, |Openers(a)|) == y
    ensures IdOf(s, |Openers(a)|) == SpanId(|Openers(a)|, open.tag)
  {
    SnocOpeners(a, open);
    CallIndicesSnoc(a, open);
    OpenersPrefix(a + [open], y);
    assert Openers(s)[|Openers(a)|] == |a|;
  }

  // ---------- Calls and brackets ----------

  lemma EventDepth(e: ExecutionEvent)
    ensures Delta(Calls, RoleOf(e)) == Depth(BracketOf(e))
  {
    if BracketOf(e) != [] {
      DepthOne(BracketOf(e)[0]);
    }
  }

  lemma CallNetStep(v: ExecutionTrace, e: ExecutionEvent)
    requires Net(Calls, Roles(v)) == Depth(Brackets(v))
    ensures Net(Calls, Roles(v + [e])) == Depth(Brackets(v + [e]))
  {
    RolesSnoc(v, e);
    SnocNet(Calls, Roles(v), RoleOf(e));
    BracketsSnoc(v, e);
    DepthConcat(Brackets(v), BracketOf(e));
    EventDepth(e);
  }

  lemma {:induction false} CallNetIsDepth(t: ExecutionTrace)
    ensures Net(Calls, Roles(t)) == Depth(Brackets(t))
  {
    if t != [] {
      CallNetIsDepth(ButLast(t));
      CallNetStep(ButLast(t), Last(t));
      Unsnoc(t);
    }
  }

  ghost predicate NeverNegative(s: seq<Bracket>) {
    forall k | 0 <= k <= |s| :: Depth(s[..k]) >= 0
  }

  lemma NeverNegativeSnoc(s: seq<Bracket>, b: Bracket)
    ensures NeverNegative(s + [b]) <==> NeverNegative(s) && Depth(s + [b]) >= 0
  {
    var t := s + [b];
    assert t[..|t|] == t;
    assert forall k | 0 <= k <= |s| :: t[..k] == s[..k];
    if NeverNegative(t) {
      forall k | 0 <= k <= |s| ensures Depth(s[..k]) >= 0 {
        assert t[..k] == s[..k];
      }
    }
  }

  /** No prefix of the trace returns from more calls than it made, said on events and on brackets. */
  lemma {:induction false} CallsNeverOverclosed(t: ExecutionTrace)
    ensures StaysOpen(Calls, Roles(t)) <==> NeverNegative(Brackets(t))
  {
    if t != [] {
      var v, e := t[..|t| - 1], t[|t| - 1];
      CallsNeverOverclosed(v);
      CallOverclosedStep(v, e);
      Unsnoc(t);
    }
  }

  lemma CallOverclosedStep(v: ExecutionTrace, e: ExecutionEvent)
    requires StaysOpen(Calls, Roles(v)) <==> NeverNegative(Brackets(v))
    ensures StaysOpen(Calls, Roles(v + [e])) <==> NeverNegative(Brackets(v + [e]))
  {
    CallNetIsDepth(v);
    CallNetIsDepth(v + [e]);
    BracketsSnoc(v, e);
    RolesSnoc(v, e);
    SnocStaysOpen(Calls, Roles(v), RoleOf(e));
    SnocNet(Calls, Roles(v), RoleOf(e));
    assert StaysOpen(Calls, Roles(v)) ==> Net(Calls, Roles(v)) >= 0;
    if BracketOf(e) == [] {
      assert Brackets(v + [e]) == Brackets(v);
    } else {
      NeverNegativeSnoc(Brackets(v), BracketOf(e)[0]);
    }
  }

  function Enters(s: seq<Bracket>): nat {
    if s == [] then 0 else Enters(s[..|s| - 1]) + if s[|s| - 1].Enter? then 1 else 0
  }

  lemma {:induction false} EntersConcat(a: seq<Bracket>, b: seq<Bracket>)
    ensures Enters(a + b) == Enters(a) + Enters(b)
  {
    if b == [] {
      ConcatNothing(a);
    } else {
      EntersConcat(a, b[..|b| - 1]);
      Unsnoc2(a, b);
      Snoc(a + b[..|b| - 1], b[|b| - 1]);
    }
  }

  lemma EntersOne(b: Bracket)
    ensures Enters([b]) == if b.Enter? then 1 else 0
  {
    assert [b][..0] == [];
  }

  lemma {:induction false} EntersPrinted(xs: seq<InvocationTrace>)
    ensures Enters(PrintAll(xs)) == SizeAll(xs)
    decreases xs
  {
    if xs != [] {
      var x := xs[0];
      var enter, body, leave := [EnterOf(x)], PrintAll(x.subinvocations), [Leave(x.returnValue, x.exitCode)];
      EntersPrinted(x.subinvocations);
      EntersPrinted(xs[1..]);
      EntersOne(enter[0]);
      EntersOne(leave[0]);
      EntersConcat(enter, body);
      EntersConcat(enter + body, leave);
      EntersConcat(Print(x), PrintAll(xs[1..]));
    }
  }

  lemma EventEnters(s: seq<Role>, e: ExecutionEvent)
    ensures |CallIndices(s + [RoleOf(e)])| == |CallIndices(s)| + Enters(BracketOf(e))
  {
    CallIndicesSnoc(s, RoleOf(e));
    if BracketOf(e) != [] {
      EntersOne(BracketOf(e)[0]);
    }
  }

  lemma CallsEnteredStep(v: ExecutionTrace, e: ExecutionEvent)
    requires |CallIndices(Roles(v))| == Enters(Brackets(v))
    ensures |CallIndices(Roles(v + [e]))| == Enters(Brackets(v + [e]))
  {
    RolesSnoc(v, e);
    EventEnters(Roles(v), e);
    BracketsSnoc(v, e);
    EntersConcat(Brackets(v), BracketOf(e));
  }

  lemma {:induction false} CallsEntered(t: ExecutionTrace)
    ensures |CallIndices(Roles(t))| == Enters(Brackets(t))
  {
    if t != [] {
      CallsEntered(ButLast(t));
      CallsEnteredStep(ButLast(t), Last(t));
      Unsnoc(t);
    }
  }

  /** A trace that prints a forest opens one call span per node. */
  lemma CallPerNode(t: ExecutionTrace, xs: seq<InvocationTrace>)
    requires Brackets(t) == PrintAll(xs)
    ensures |CallIndices(Roles(t))| == SizeAll(xs)
  {
    EntersPrinted(xs);
    CallsEntered(t);
  }

  /** In a trace that prints a forest every call returns. */
  lemma CallsReturn(t: ExecutionTrace, xs: seq<InvocationTrace>)
    requires Brackets(t) == PrintAll(xs)
    ensures Net(Calls, Roles(t)) == 0 && StaysOpen(Calls, Roles(t))
  {
    PrintAllStaysUp(xs);
    CallNetIsDepth(t);
    CallsNeverOverclosed(t);
  }

  /** No role of the script opens or closes a call. */
  ghost predicate CallFree(s: seq<Role>) {
    forall i | 0 <= i < |s| :: Delta(Calls, s[i]) == 0
  }

  lemma {:induction false} NoBracketsNoCalls(t: ExecutionTrace)
    requires Brackets(t) == []
    ensures CallFree(Roles(t))
  {
    if t != [] {
      var v, e := ButLast(t), Last(t);
      NoBracketsNoCalls(v);
      RolesSnoc(v, e);
      Unsnoc(t);
      assert Delta(Calls, RoleOf(e)) == 0;
    }
  }

  /** A script without calls makes all its charges directly. */
  lemma {:induction false} CallFreeIsDirect(s: seq<Role>)
    requires CallFree(s)
    ensures Net(Calls, s) == 0 && StaysOpen(Calls, s)
    ensures Nested(s) == [] && CallIndices(s) == []
  {
    if s != [] {
      CallFreeIsDirect(s[..|s| - 1]);
    }
  }

  /** Splits a trace at its first call or return. */
  lemma {:induction false} SplitFirst(t: ExecutionTrace, b: Bracket, more: seq<Bracket>)
    returns (pre: ExecutionTrace, e: ExecutionEvent, rest: ExecutionTrace)
    requires Brackets(t) == [b] + more
    ensures t == pre + [e] + rest
    ensures Brackets(pre) == [] && BracketOf(e) == [b] && Brackets(rest) == more
  {
    var v, last := t[..|t| - 1], t[|t| - 1];
    if Brackets(v) == [] {
      assert BracketOf(last) == [b] + more;
      pre, e, rest := v, last, [];
    } else {
      var inner := Brackets(v)[1..];
      assert Brackets(v)[0] == ([b] + more)[0];
      assert Brackets(v) == [b] + inner;
      assert more == inner + BracketOf(last) by {
        assert [b] + more == [b] + (inner + BracketOf(last));
        assert ([b] + more)[1..] == more;
      }
      var rest1;
      pre, e, rest1 := SplitFirst(v, b, inner);
      rest := rest1 + [last];
      BracketsSnoc(rest1, last);
      Unsnoc(t);
      Associate(pre + [e], rest1, [last]);
    }
  }

  lemma LastOfConcat<T>(b: seq<T>, x: T, u: seq<T>, w: seq<T>)
    requires b + [x] == u + w && w != []
    ensures x == w[|w| - 1] && b == u + w[..|w| - 1]
  {
    assert (b + [x])[..|b|] == b && (u + w)[..|b|] == u + w[..|w| - 1];
    assert (b + [x])[|b|] == (u + w)[|b|];
  }

  /** Splits a trace between two parts of its calls and returns. */
  lemma {:induction false} SplitBetween(t: ExecutionTrace, u: seq<Bracket>, w: seq<Bracket>)
    returns (a: ExecutionTrace, b: ExecutionTrace)
    requires Brackets(t) == u + w
    ensures t == a + b && Brackets(a) == u && Brackets(b) == w
  {
    if w == [] {
      a, b := t, [];
    } else {
      var v, last := t[..|t| - 1], t[|t| - 1];
      var w1 := if BracketOf(last) == [] then w else w[..|w| - 1];
      assert Brackets(v) == u + w1 && w == w1 + BracketOf(last) by {
        if BracketOf(last) != [] {
          LastOfConcat(Brackets(v), BracketOf(last)[0], u, w);
        }
      }
      var b1;
      a, b1 := SplitBetween(v, u, w1);
      b := b1 + [last];
      BracketsSnoc(b1, last);
      Unsnoc(t);
      Associate(a, b1, [last]);
    }
  }

  lemma PrintFirst(x: InvocationTrace, more: seq<Bracket>)
    ensures Print(x) + more
         == [EnterOf(x)] + (PrintAll(x.subinvocations) + ([Leave(x.returnValue, x.exitCode)] + more))
  {
  }

  /** A trace that prints a non-empty forest: the first tree's call, its callees, its return, and the rest. */
  lemma {:induction false} SplitFirstTree(t: ExecutionTrace, x: InvocationTrace, xs: seq<InvocationTrace>)
    returns (pre: ExecutionTrace, call: ExecutionEvent, body: ExecutionTrace, ret: ExecutionEvent, rest: ExecutionTrace)
    requires Brackets(t) == Print(x) + PrintAll(xs)
    ensures t == pre + [call] + body + [ret] + rest
    ensures Brackets(pre) == [] && Brackets(body) == PrintAll(x.subinvocations) && Brackets(rest) == PrintAll(xs)
    ensures BracketOf(call) == [EnterOf(x)] && BracketOf(ret) == [Leave(x.returnValue, x.exitCode)]
  {
    var inner, leave, more := PrintAll(x.subinvocations), Leave(x.returnValue, x.exitCode), PrintAll(xs);
    var t1, t2, body1, body2;
    PrintFirst(x, more);
    pre, call, t1 := SplitFirst(t, EnterOf(x), inner + ([leave] + more));
    body1, t2 := SplitBetween(t1, inner, [leave] + more);
    body2, ret, rest := SplitFirst(t2, leave, more);
    body := body1 + body2;
    var h := pre + [call];
    Associate(h, body1, t2);
    Associate(h + body1, body2, [ret] + rest);
    Associate(h, body1, body2);
    Associate(body2, [ret], rest);
    Associate(h + body, [ret], rest);
    assert Brackets(body) == inner by {
      BracketsConcat(body1, body2);
      assert inner + [] == inner;
    }
  }

  // ---------- Windows of calls ----------

  /** What follows a matching close does not matter. */
  lemma {:induction false} ClosedWindow(c: Key, w: seq<Role>, y: seq<Role>)
    requires !StaysOpen(c, w)
    ensures !StaysOpen(c, w + y) && Window(c, w + y) == Window(c, w)
  {
    if y == [] {
      ConcatNothing(w);
    } else {
      var v, r := y[..|y| - 1], y[|y| - 1];
      ClosedWindow(c, w, v);
      Unsnoc2(w, y);
      SnocStaysOpen(c, w + v, r);
      SnocWindow(c, w + v, r);
    }
  }

  lemma {:induction false} StaysOpenConcat(c: Key, a: seq<Role>, b: seq<Role>)
    requires StaysOpen(c, a) && StaysOpen(c, b) && Net(c, a) >= 0
    ensures StaysOpen(c, a + b)
  {
    if b == [] {
      ConcatNothing(a);
    } else {
      var v, r := b[..|b| - 1], b[|b| - 1];
      StaysOpenConcat(c, a, v);
      Unsnoc2(a, b);
      SnocStaysOpen(c, a + v, r);
      NetConcat(c, a, b);
    }
  }

  lemma {:induction false} DirectConcat(a: seq<Role>, b: seq<Role>)
    requires Net(Calls, a) == 0
    ensures Direct(a + b) == Direct(a) + Direct(b)
  {
    if b == [] {
      ConcatNothing(a);
    } else {
      var v, r := b[..|b| - 1], b[|b| - 1];
      DirectConcat(a, v);
      NetConcat(Calls, a, v);
      SnocDirect(a + v, r);
      Unsnoc2(a, b);
    }
  }

  lemma {:induction false} RunningCallTally(pre: seq<Role>, open: Role, body: seq<Role>, v: seq<Role>)
    requires OpensCall(open) && Net(Calls, pre) == 0 && StaysOpen(Calls, pre) && StaysOpen(Calls, body)
    requires v == pre + [open] + body
    ensures Net(Calls, v) == 1 + Net(Calls, body) && StaysOpen(Calls, v)
    ensures Tally(v) == Tally(pre).Merge(Tally(body))
  {
    var u := pre + [open];
    SnocNet(Calls, pre, open);
    SnocStaysOpen(Calls, pre, open);
    SnocTally(pre, open);
    NetConcat(Calls, u, body);
    StaysOpenConcat(Calls, u, body);
    TallyConcat(u, body);
  }

  lemma RunningCallDirect(pre: seq<Role>, open: Role, body: seq<Role>, v: seq<Role>)
    requires OpensCall(open) && Net(Calls, pre) == 0 && StaysOpen(Calls, body)
    requires v == pre + [open] + body
    ensures Direct(v) == Direct(pre)
  {
    RunningCallCharges(pre, open, body);
  }

  /** The return of the only running call changes neither the tally nor the direct charges. */
  lemma FinishedCall(v: seq<Role>)
    requires Net(Calls, v) == 1 && StaysOpen(Calls, v)
    ensures Net(Calls, v + [Close(Calls)]) == 0 && StaysOpen(Calls, v + [Close(Calls)])
    ensures Direct(v + [Close(Calls)]) == Direct(v) && Tally(v + [Close(Calls)]) == Tally(v)
  {
    SnocNet(Calls, v, Close(Calls));
    SnocStaysOpen(Calls, v, Close(Calls));
    SnocTally(v, Close(Calls));
    SnocDirect(v, Close(Calls));
  }

  /** The gas of a call whose callees have all returned before its own return. */
  lemma CallMeasure(id: string, body: seq<Role>, y: seq<Role>)
    requires StaysOpen(Calls, body) && Net(Calls, body) == 0
    ensures Measure(Calls, id, body + [Close(Calls)] + y) == SpanValue(id, Tally(Direct(body)), Tally(body))
  {
    MatchingClose(Calls, body);
    ClosedWindow(Calls, body + [Close(Calls)], y);
  }

  // ---------- Which call a span stands for ----------

  function TagOf(x: InvocationTrace): string {
    CallTag(x.from, x.to, x.methodNum)
  }

  /** Tags of the spans opened by calls, in order. */
  function CallTags(s: seq<Role>): seq<string> {
    if s == [] then [] else CallTags(s[..|s| - 1]) + if OpensCall(Last(s)) then [Last(s).tag] else []
  }

  function EnterTags(s: seq<Bracket>): seq<string> {
    if s == [] then [] else
    var b := s[|s| - 1];
    EnterTags(s[..|s| - 1]) + if b.Enter? then [CallTag(b.from, b.to, b.methodNum)] else []
  }

  lemma CallTagsSnoc(s: seq<Role>, r: Role)
    ensures CallTags(s + [r]) == if OpensCall(r) then CallTags(s) + [r.tag] else CallTags(s)
  {
    Snoc(s, r);
  }

  lemma EnterTagsSnoc(s: seq<Bracket>, b: Bracket)
    ensures EnterTags(s + [b]) == if b.Enter? then EnterTags(s) + [CallTag(b.from, b.to, b.methodNum)] else EnterTags(s)
  {
    Snoc(s, b);
  }

  lemma {:induction false} EnterTagsConcat(a: seq<Bracket>, b: seq<Bracket>)
    ensures EnterTags(a + b) == EnterTags(a) + EnterTags(b)
  {
    if b == [] {
      ConcatNothing(a);
    } else {
      EnterTagsConcat(a, ButLast(b));
      Unsnoc2(a, b);
      EnterTagsSnoc(a + ButLast(b), Last(b));
    }
  }

  /** The span's id carries the tag of its call. */
  lemma {:induction false} CallTagAt(s: seq<Role>, k: nat)
    requires k < |CallIndices(s)|
    ensures |CallTags(s)| == |CallIndices(s)| && CallIndices(s)[k] < |Openers(s)|
    ensures IdOf(s, CallIndices(s)[k]) == SpanId(CallIndices(s)[k], CallTags(s)[k])
  {
    var v, r := ButLast(s), Last(s);
    Unsnoc(s);
    CallIndicesSnoc(v, r);
    CallTagsSnoc(v, r);
    SnocOpeners(v, r);
    SameCount(v);
    if k < |CallIndices(v)| {
      CallTagAt(v, k);
      SnocOpener(v, r, CallIndices(v)[k]);
    }
  }

  lemma {:induction false} SameCount(s: seq<Role>)
    ensures |CallTags(s)| == |CallIndices(s)|
  {
    if s != [] {
      SameCount(ButLast(s));
    }
  }

  function EventTags(e: ExecutionEvent): seq<string> {
    if e.Call? then [CallTag(e.from, e.to, e.methodNum)] else []
  }

  lemma EventTagOfRole(s: seq<Role>, e: ExecutionEvent)
    ensures CallTags(s + [RoleOf(e)]) == CallTags(s) + EventTags(e)
  {
    CallTagsSnoc(s, RoleOf(e));
  }

  lemma {:induction false} EventTagOfBracket(s: seq<Bracket>, e: ExecutionEvent)
    ensures EnterTags(s + BracketOf(e)) == EnterTags(s) + EventTags(e)
  {
    if BracketOf(e) == [] {
      ConcatNothing(s);
    } else {
      EnterTagsSnoc(s, BracketOf(e)[0]);
    }
  }

  lemma {:induction false} TraceTagsStep(v: ExecutionTrace, e: ExecutionEvent, s: seq<Role>, root: seq<Role>)
    requires CallTags(s) == CallTags(root) + EnterTags(Brackets(v))
    ensures CallTags(s + [RoleOf(e)]) == CallTags(root) + EnterTags(Brackets(v + [e]))
  {
    EventTagOfRole(s, e);
    BracketsSnoc(v, e);
    EventTagOfBracket(Brackets(v), e);
    Associate(CallTags(root), EnterTags(Brackets(v)), EventTags(e));
  }

  /** The call spans of a trace are tagged by its calls, in order. */
  lemma {:induction false} TraceTags(t: ExecutionTrace, root: seq<Role>)
    ensures CallTags(root + Roles(t)) == CallTags(root) + EnterTags(Brackets(t))
  {
    if t == [] {
      ConcatNothing(root);
    } else {
      TraceTags(ButLast(t), root);
      TraceTagsStep(ButLast(t), Last(t), root + Roles(ButLast(t)), root);
      RolesSnoc(ButLast(t), Last(t));
      Associate(root, Roles(ButLast(t)), [RoleOf(Last(t))]);
      Unsnoc(t);
    }
  }

  function TagsOf(nodes: seq<InvocationTrace>): seq<string> {
    seq(|nodes|, k requires 0 <= k < |nodes| => TagOf(nodes[k]))
  }

  lemma TagsOfConcat(a: seq<InvocationTrace>, b: seq<InvocationTrace>)
    ensures TagsOf(a + b) == TagsOf(a) + TagsOf(b)
  {
  }

  lemma PrintedTreeTags(x: InvocationTrace)
    ensures EnterTags(Print(x)) == [TagOf(x)] + EnterTags(PrintAll(x.subinvocations))
  {
    var enter, body, leave := [EnterOf(x)], PrintAll(x.subinvocations), Leave(x.returnValue, x.exitCode);
    EnterTagsSnoc([], EnterOf(x));
    ConcatNothing(enter);
    EnterTagsConcat(enter, body);
    EnterTagsSnoc(enter + body, leave);
  }

  /** A printed forest enters its invocations in pre-order. */
  lemma {:induction false} PrintedTags(xs: seq<InvocationTrace>)
    ensures EnterTags(PrintAll(xs)) == TagsOf(PreOrder(xs))
    decreases xs
  {
    if xs != [] {
      var callees := xs[0].subinvocations;
      PrintedTags(callees);
      PrintedTags(xs[1..]);
      PrintedTreeTags(xs[0]);
      EnterTagsConcat(Print(xs[0]), PrintAll(xs[1..]));
      TagsOfConcat([xs[0]], PreOrder(callees));
      TagsOfConcat([xs[0]] + PreOrder(callees), PreOrder(xs[1..]));
    }
  }
}
