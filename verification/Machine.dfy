/**
 The single-pass analysis as a transition system on values: spans, a stack of open calls and, per
 label, a stack of open named spans.
 */
module Machine {
  import opened Wrappers
  import opened Sequences
  import opened GasModel
  import opened Script
  import opened Measures

  /** Why the analysis gives up: the failed unwraps and the final assertion of the program. */
  datatype Panic = UnmatchedReturn | UnknownLabel | LabelNotOpen | UnclosedCall | Overflow

  datatype State = State(spans: seq<SpanValue>, callStack: seq<nat>, named: map<string, seq<nat>>) {
    function Stack(c: Key): seq<nat> {
      match c
      case Calls => callStack
      case Named(name) => if name in named then named[name] else []
    }

    ghost predicate InRange() {
      && callStack != []
      && (forall h | 0 <= h < |callStack| :: callStack[h] < |spans|)
      && (forall name, h | name in named && 0 <= h < |named[name]| :: named[name][h] < |spans|)
    }

    /** Whether a charge goes to span `i`: it is the innermost open call or an open named span. */
    ghost predicate Receives(i: nat) {
      (callStack != [] && i == callStack[|callStack| - 1]) || exists name | name in named :: i in named[name]
    }
  }

  const INITIAL := State([SpanValue("Root", EMPTY_LEDGER, EMPTY_LEDGER)], [0], map[])

  function NewSpan(i: nat, tag: string): SpanValue {
    SpanValue(SpanId(i, tag), EMPTY_LEDGER, EMPTY_LEDGER)
  }

  ghost function ChargeSpans(st: State, name: string, gas: Gas): (spans: seq<SpanValue>)
    ensures |spans| == |st.spans|
  {
    seq(|st.spans|, i requires 0 <= i < |st.spans| =>
      if st.Receives(i) then Credited(st.spans[i], name, gas) else st.spans[i])
  }

  ghost function ReturnCall(st: State): State
    requires st.InRange() && |st.callStack| >= 2
  {
    var closed, parent := Last(st.callStack), Last(ButLast(st.callStack));
    var spans := st.spans[closed := Settled(st.spans[closed])];
    State(spans[parent := Absorbed(spans[parent], spans[closed])], ButLast(st.callStack), st.named)
  }

  ghost function CloseNamed(st: State, name: string): State
    requires st.InRange() && name in st.named && st.named[name] != []
  {
    var closed := Last(st.named[name]);
    State(st.spans[closed := Settled(st.spans[closed])], st.callStack, st.named[name := ButLast(st.named[name])])
  }

  ghost function Step(st: State, r: Role): (next: Result<State, Panic>)
    requires st.InRange()
    ensures next.Success? ==> next.value.InRange()
  {
    var n := |st.spans|;
    match r
    case Charge(name, gas) => Success(st.(spans := ChargeSpans(st, name, gas)))
    case Open(Calls, tag) => Success(st.(spans := st.spans + [NewSpan(n, tag)], callStack := st.callStack + [n]))
    case Open(Named(name), tag) =>
      Success(st.(spans := st.spans + [NewSpan(n, tag)], named := st.named[name := st.Stack(Named(name)) + [n]]))
    case Close(Calls) => if |st.callStack| < 2 then Failure(UnmatchedReturn) else Success(ReturnCall(st))
    case Close(Named(name)) =>
      if name !in st.named then Failure(UnknownLabel)
      else if st.named[name] == [] then Failure(LabelNotOpen)
      else Success(CloseNamed(st, name))
    case Inert => Success(st)
  }

  ghost function Run(s: seq<Role>): (end: Result<State, Panic>)
    ensures end.Success? ==> end.value.InRange()
  {
    if s == [] then Success(INITIAL) else
    var before := Run(ButLast(s));
    if before.Failure? then before else Step(before.value, Last(s))
  }

  /** Closing Root at the end of the trace. */
  ghost function Finish(st: State): Result<seq<SpanValue>, Panic>
    requires st.InRange()
  {
    if |st.callStack| > 1 then Failure(UnclosedCall)
    else Success(st.spans[st.callStack[0] := Settled(st.spans[st.callStack[0]])])
  }

  // ---------- The stacks hold exactly the open spans ----------

  /** `stack` lists, in order, the spans of script `s` that are open under key `c`. */
  ghost predicate Tracks(c: Key, stack: seq<nat>, s: seq<Role>) {
    && |stack| == Net(c, s)
    && (forall h, k | 0 <= h < k < |stack| :: stack[h] < stack[k])
    && (forall h | 0 <= h < |stack| :: TracksAt(c, stack, h, s))
    && (forall i | 0 <= i < |Openers(s)| && IsOpen(c, s, i) :: i in stack)
  }

  ghost predicate TracksAt(c: Key, stack: seq<nat>, h: nat, s: seq<Role>)
    requires h < |stack|
  {
    stack[h] < |Openers(s)| && IsOpen(c, s, stack[h]) && Net(c, After(s, stack[h])) == |stack| - 1 - h
  }

  /** Span `i` was opened under `c` and has not been closed. */
  ghost predicate IsOpen(c: Key, s: seq<Role>, i: nat)
    requires i < |Openers(s)|
  {
    KeyOf(s, i) == c && StaysOpen(c, After(s, i))
  }

  lemma IsOpenSnoc(c: Key, s: seq<Role>, r: Role, i: nat)
    requires i < |Openers(s)|
    ensures i < |Openers(s + [r])|
    ensures IsOpen(c, s + [r], i) <==> IsOpen(c, s, i) && Net(c, After(s, i)) + Delta(c, r) >= 0
    ensures Net(c, After(s + [r], i)) == Net(c, After(s, i)) + Delta(c, r)
  {
    SnocOpener(s, r, i);
    SnocNet(c, After(s, i), r);
    SnocStaysOpen(c, After(s, i), r);
  }

  lemma OpenedSpan(s: seq<Role>, r: Role)
    requires r.Open?
    ensures Openers(s + [r]) == Openers(s) + [|s|]
    ensures KeyOf(s + [r], |Openers(s)|) == r.key && After(s + [r], |Openers(s)|) == []
    ensures IdOf(s + [r], |Openers(s)|) == SpanId(|Openers(s)|, r.tag)
  {
    SnocOpeners(s, r);
  }

  lemma TracksOpenAt(c: Key, stack: seq<nat>, s: seq<Role>, r: Role, h: nat)
    requires Tracks(c, stack, s) && r.Open? && r.key == c && h <= |stack|
    ensures TracksAt(c, stack + [|Openers(s)|], h, s + [r])
  {
    OpenedSpan(s, r);
    if h < |stack| {
      assert TracksAt(c, stack, h, s);
      IsOpenSnoc(c, s, r, stack[h]);
    }
  }

  lemma TracksOpen(c: Key, stack: seq<nat>, s: seq<Role>, r: Role)
    requires Tracks(c, stack, s) && r.Open? && r.key == c
    ensures Tracks(c, stack + [|Openers(s)|], s + [r])
  {
    var next := stack + [|Openers(s)|];
    SnocNet(c, s, r);
    OpenedSpan(s, r);
    assert forall h | 0 <= h < |stack| :: TracksAt(c, stack, h, s) && stack[h] < |Openers(s)|;
    forall h | 0 <= h < |next| ensures TracksAt(c, next, h, s + [r]) {
      TracksOpenAt(c, stack, s, r, h);
    }
    forall i | 0 <= i < |Openers(s + [r])| && IsOpen(c, s + [r], i) ensures i in next {
      if i < |Openers(s)| {
        IsOpenSnoc(c, s, r, i);
      }
    }
  }

  lemma TracksClose(c: Key, stack: seq<nat>, s: seq<Role>)
    requires Tracks(c, stack, s) && stack != []
    ensures Tracks(c, ButLast(stack), s + [Close(c)])
  {
    var next, r := ButLast(stack), Close(c);
    SnocNet(c, s, r);
    SnocOpeners(s, r);
    forall h | 0 <= h < |next| ensures TracksAt(c, next, h, s + [r]) {
      assert TracksAt(c, stack, h, s);
      IsOpenSnoc(c, s, r, stack[h]);
    }
    forall i | 0 <= i < |Openers(s + [r])| && IsOpen(c, s + [r], i) ensures i in next {
      IsOpenSnoc(c, s, r, i);
      var h :| 0 <= h < |stack| && stack[h] == i;
      assert TracksAt(c, stack, h, s);
      assert next[h] == i;
    }
  }

  lemma TracksOther(c: Key, stack: seq<nat>, s: seq<Role>, r: Role)
    requires Tracks(c, stack, s) && Delta(c, r) == 0
    ensures Tracks(c, stack, s + [r])
  {
    SnocNet(c, s, r);
    SnocOpeners(s, r);
    forall h | 0 <= h < |stack| ensures TracksAt(c, stack, h, s + [r]) {
      assert TracksAt(c, stack, h, s);
      IsOpenSnoc(c, s, r, stack[h]);
    }
    forall i | 0 <= i < |Openers(s + [r])| && IsOpen(c, s + [r], i) ensures i in stack {
      if i < |Openers(s)| {
        IsOpenSnoc(c, s, r, i);
      } else {
        OpenedSpan(s, r);
      }
    }
  }

  // ---------- The spans hold exactly the gas measured on the script ----------

  /** The stacks list exactly the open spans. */
  ghost predicate StacksTrack(st: State, s: seq<Role>) {
    && st.InRange()
    && |st.spans| == |Openers(s)|
    && forall c: Key :: Tracks(c, st.Stack(c), s)
  }

  /** The state after a script: the open spans are on the stacks, and every span holds what is measured for it. */
  ghost predicate Describes(st: State, s: seq<Role>) {
    StacksTrack(st, s) && st.spans == SpansOf(s)
  }

  lemma StackAt(st: State, s: seq<Role>, c: Key, h: nat)
    requires StacksTrack(st, s) && h < |st.Stack(c)|
    ensures var i := st.Stack(c)[h];
            i < |st.spans| && IsOpen(c, s, i) && Net(c, After(s, i)) == |st.Stack(c)| - 1 - h
  {
    assert Tracks(c, st.Stack(c), s);
    assert TracksAt(c, st.Stack(c), h, s);
  }

  lemma {:induction false} OpenOnStack(st: State, s: seq<Role>, c: Key, i: nat) returns (h: nat)
    requires StacksTrack(st, s) && i < |st.spans| && IsOpen(c, s, i)
    ensures h < |st.Stack(c)| && st.Stack(c)[h] == i && Net(c, After(s, i)) == |st.Stack(c)| - 1 - h
  {
    assert Tracks(c, st.Stack(c), s);
    h :| 0 <= h < |st.Stack(c)| && st.Stack(c)[h] == i;
    StackAt(st, s, c, h);
  }

  /** Gas goes to the innermost running call and to every open named span. */
  lemma ReceivesMeaning(st: State, s: seq<Role>, i: nat)
    requires StacksTrack(st, s) && i < |st.spans|
    ensures st.Receives(i) <==> IsOpen(KeyOf(s, i), s, i) && (KeyOf(s, i) == Calls ==> Net(Calls, After(s, i)) == 0)
  {
    if i == Last(st.callStack) {
      StackAt(st, s, Calls, |st.callStack| - 1);
    } else if name :| name in st.named && i in st.named[name] {
      var h :| 0 <= h < |st.named[name]| && st.named[name][h] == i;
      StackAt(st, s, Named(name), h);
    } else if IsOpen(KeyOf(s, i), s, i) {
      var h := OpenOnStack(st, s, KeyOf(s, i), i);
    }
  }

  lemma ChargeSpanAt(s: seq<Role>, r: Role, i: nat, receives: bool)
    requires i < |Openers(s)| && r.Charge?
    requires receives <==>
               IsOpen(KeyOf(s, i), s, i) && (KeyOf(s, i) == Calls ==> Net(Calls, After(s, i)) == 0)
    ensures i < |Openers(s + [r])|
    ensures SpanOf(s + [r], i) == if receives then Credited(SpanOf(s, i), r.name, r.gas) else SpanOf(s, i)
  {
    SnocOpener(s, r, i);
    var c, w := KeyOf(s, i), After(s, i);
    if StaysOpen(c, w) {
      OpenNetNonNegative(c, w);
      ChargeCredits(c, IdOf(s, i), w, r);
    } else {
      ClosedStays(c, IdOf(s, i), w, r);
    }
  }

  lemma ChargeStep(st: State, s: seq<Role>, r: Role)
    requires Describes(st, s) && r.Charge?
    ensures Describes(Step(st, r).value, s + [r])
  {
    var next := Step(st, r).value;
    SnocOpeners(s, r);
    forall i | 0 <= i < |st.spans| ensures next.spans[i] == SpanOf(s + [r], i) {
      ReceivesMeaning(st, s, i);
      ChargeSpanAt(s, r, i, st.Receives(i));
    }
    forall c: Key ensures Tracks(c, next.Stack(c), s + [r]) {
      TracksOther(c, st.Stack(c), s, r);
    }
  }

  /** Spans that a role without gas does not close, and that no child returns to, keep their value. */
  lemma SpanUntouched(s: seq<Role>, r: Role, i: nat)
    requires i < |Openers(s)| && !r.Charge?
    requires StaysOpen(KeyOf(s, i), After(s, i)) ==>
               Net(KeyOf(s, i), After(s, i)) + Delta(KeyOf(s, i), r) >= 0
               && (r == Close(Calls) && KeyOf(s, i) == Calls ==> Net(Calls, After(s, i)) != 1)
    ensures i < |Openers(s + [r])| && SpanOf(s + [r], i) == SpanOf(s, i)
  {
    var c, w := KeyOf(s, i), After(s, i);
    SnocOpener(s, r, i);
    if StaysOpen(c, w) {
      SnocNet(c, w, r);
      SnocStaysOpen(c, w, r);
      IdleStays(c, IdOf(s, i), w, r);
    } else {
      ClosedStays(c, IdOf(s, i), w, r);
    }
  }

  lemma OpenKeepsSpan(s: seq<Role>, r: Role, i: nat)
    requires r.Open? && i < |Openers(s)|
    ensures i < |Openers(s + [r])| && SpanOf(s + [r], i) == SpanOf(s, i)
  {
    if StaysOpen(KeyOf(s, i), After(s, i)) {
      OpenNetNonNegative(KeyOf(s, i), After(s, i));
    }
    SpanUntouched(s, r, i);
  }

  lemma OpenedIsNew(s: seq<Role>, r: Role)
    requires r.Open?
    ensures |Openers(s + [r])| == |Openers(s)| + 1
    ensures SpanOf(s + [r], |Openers(s)|) == NewSpan(|Openers(s)|, r.tag)
  {
    OpenedSpan(s, r);
    assert Measure(r.key, SpanId(|Openers(s)|, r.tag), []) == NewSpan(|Openers(s)|, r.tag);
  }

  lemma OpenSpans(s: seq<Role>, r: Role)
    requires r.Open?
    ensures SpansOf(s + [r]) == SpansOf(s) + [NewSpan(|Openers(s)|, r.tag)]
  {
    OpenedIsNew(s, r);
    forall i | 0 <= i < |Openers(s)| ensures SpanOf(s + [r], i) == SpanOf(s, i) {
      OpenKeepsSpan(s, r, i);
    }
  }

  lemma OpenStep(st: State, s: seq<Role>, r: Role)
    requires Describes(st, s) && r.Open?
    ensures Describes(Step(st, r).value, s + [r])
  {
    var next := Step(st, r).value;
    OpenSpans(s, r);
    forall c: Key ensures Tracks(c, next.Stack(c), s + [r]) {
      assert Tracks(c, st.Stack(c), s);
      if c == r.key {
        TracksOpen(c, st.Stack(c), s, r);
      } else {
        TracksOther(c, st.Stack(c), s, r);
      }
    }
  }

  lemma {:induction false} InertStep(st: State, s: seq<Role>, r: Role)
    requires Describes(st, s) && r.Inert?
    ensures Describes(st, s + [r])
  {
    SnocOpeners(s, r);
    forall i | 0 <= i < |st.spans| ensures st.spans[i] == SpanOf(s + [r], i) {
      if StaysOpen(KeyOf(s, i), After(s, i)) {
        OpenNetNonNegative(KeyOf(s, i), After(s, i));
      }
      SpanUntouched(s, r, i);
    }
    forall c: Key ensures Tracks(c, st.Stack(c), s + [r]) {
      TracksOther(c, st.Stack(c), s, r);
    }
  }

  /** What a close does to each span: it settles the innermost one; only a returning call reaches its parent. */
  lemma CloseSpan(st: State, s: seq<Role>, c: Key, i: nat)
    requires StacksTrack(st, s) && st.Stack(c) != [] && i < |st.spans|
    requires i != Last(st.Stack(c))
    requires c == Calls && |st.callStack| >= 2 ==> i != Last(ButLast(st.callStack))
    ensures i < |Openers(s + [Close(c)])| && SpanOf(s + [Close(c)], i) == SpanOf(s, i)
  {
    if IsOpen(KeyOf(s, i), s, i) {
      var h := OpenOnStack(st, s, KeyOf(s, i), i);
    }
    SpanUntouched(s, Close(c), i);
  }

  lemma MatchingCloseSettles(s: seq<Role>, c: Key, i: nat)
    requires i < |Openers(s)| && IsOpen(c, s, i) && Net(c, After(s, i)) == 0
    ensures i < |Openers(s + [Close(c)])| && SpanOf(s + [Close(c)], i) == Settled(SpanOf(s, i))
  {
    SnocOpener(s, Close(c), i);
    var w := After(s, i);
    CloseSettles(c, IdOf(s, i), w);
  }

  lemma {:induction false} CloseTop(st: State, s: seq<Role>, c: Key)
    requires Describes(st, s) && st.Stack(c) != []
    ensures var i := Last(st.Stack(c));
            i < |Openers(s)| && i < |Openers(s + [Close(c)])| && SpanOf(s + [Close(c)], i) == Settled(SpanOf(s, i))
  {
    StackAt(st, s, c, |st.Stack(c)| - 1);
    MatchingCloseSettles(s, c, Last(st.Stack(c)));
  }

  lemma CloseStacks(st: State, s: seq<Role>, c: Key, d: Key)
    requires StacksTrack(st, s) && st.Stack(c) != []
    ensures Tracks(d, if c == d then ButLast(st.Stack(c)) else st.Stack(d), s + [Close(c)])
  {
    assert Tracks(d, st.Stack(d), s);
    if c == d {
      TracksClose(c, st.Stack(c), s);
    } else {
      TracksOther(d, st.Stack(d), s, Close(c));
    }
  }

  lemma CloseNamedSpans(st: State, s: seq<Role>, name: string)
    requires Describes(st, s) && name in st.named && st.named[name] != []
    ensures CloseNamed(st, name).spans == SpansOf(s + [Close(Named(name))])
  {
    var c, next := Named(name), CloseNamed(st, name);
    SnocOpeners(s, Close(c));
    CloseTop(st, s, c);
    forall i | 0 <= i < |st.spans| ensures next.spans[i] == SpanOf(s + [Close(c)], i) {
      if i != Last(st.named[name]) {
        CloseSpan(st, s, c, i);
      }
    }
  }

  lemma CloseNamedStep(st: State, s: seq<Role>, name: string)
    requires Describes(st, s) && name in st.named && st.named[name] != []
    ensures Describes(CloseNamed(st, name), s + [Close(Named(name))])
  {
    CloseNamedSpans(st, s, name);
    forall d: Key ensures Tracks(d, CloseNamed(st, name).Stack(d), s + [Close(Named(name))]) {
      CloseStacks(st, s, Named(name), d);
    }
  }

  lemma ParentAbsorbs(s: seq<Role>, i: nat, j: nat)
    requires i < j < |Openers(s)| && IsOpen(Calls, s, i) && IsOpen(Calls, s, j)
    requires Net(Calls, After(s, i)) == 1 && Net(Calls, After(s, j)) == 0
    ensures i < |Openers(s + [Close(Calls)])|
    ensures SpanOf(s + [Close(Calls)], i) == Absorbed(SpanOf(s, i), Settled(SpanOf(s, j)))
  {
    var p, q := Openers(s)[i], Openers(s)[j];
    var w := After(s, i);
    ParentWindow(s, i, j);
    ReturnAbsorbs(IdOf(s, i), IdOf(s, j), w, s[p + 1..q], s[q], After(s, j));
    SnocOpener(s, Close(Calls), i);
  }

  lemma StackOrder(st: State, s: seq<Role>, c: Key, h: nat, k: nat)
    requires StacksTrack(st, s) && h < k < |st.Stack(c)|
    ensures st.Stack(c)[h] < st.Stack(c)[k]
  {
    assert Tracks(c, st.Stack(c), s);
  }

  /** The two innermost running calls. */
  lemma {:induction false} TopTwo(st: State, s: seq<Role>, i: nat, j: nat)
    requires StacksTrack(st, s) && |st.callStack| >= 2
    requires i == Last(ButLast(st.callStack)) && j == Last(st.callStack)
    ensures i < j < |Openers(s)| && IsOpen(Calls, s, i) && IsOpen(Calls, s, j)
    ensures Net(Calls, After(s, i)) == 1 && Net(Calls, After(s, j)) == 0
  {
    var top := |st.callStack| - 1;
    StackAt(st, s, Calls, top);
    StackAt(st, s, Calls, top - 1);
    StackOrder(st, s, Calls, top - 1, top);
  }

  /** A returning call's parent absorbs the child's total. */
  lemma ReturnParent(st: State, s: seq<Role>)
    requires Describes(st, s) && |st.callStack| >= 2
    ensures var i, j := Last(ButLast(st.callStack)), Last(st.callStack);
            i < j < |Openers(s)| && i < |Openers(s + [Close(Calls)])|
            && SpanOf(s + [Close(Calls)], i) == Absorbed(SpanOf(s, i), Settled(SpanOf(s, j)))
  {
    var i, j := Last(ButLast(st.callStack)), Last(st.callStack);
    TopTwo(st, s, i, j);
    ParentAbsorbs(s, i, j);
  }

  lemma BalancedBeforeCall(w: seq<Role>, a: seq<Role>, open: Role, b: seq<Role>)
    requires w == a + [open] + b && open.Open? && open.key == Calls
    requires Net(Calls, w) == 1 + Net(Calls, b)
    ensures Net(Calls, a) == 0
  {
    NetConcat(Calls, a + [open], b);
    SnocNet(Calls, a, open);
  }

  lemma SplitAtTwo(s: seq<Role>, p: nat, q: nat)
    requires p < q < |s|
    ensures s[p + 1..] == s[p + 1..q] + [s[q]] + s[q + 1..]
  {
  }

  lemma {:induction false} ParentWindow(s: seq<Role>, i: nat, j: nat)
    requires i < j < |Openers(s)|
    requires KeyOf(s, j) == Calls && Net(Calls, After(s, i)) == 1 + Net(Calls, After(s, j))
    ensures var p, q := Openers(s)[i], Openers(s)[j];
            p < q && After(s, i) == s[p + 1..q] + [s[q]] + After(s, j) && Net(Calls, s[p + 1..q]) == 0
  {
    var p, q := Openers(s)[i], Openers(s)[j];
    SplitAtTwo(s, p, q);
    BalancedBeforeCall(After(s, i), s[p + 1..q], s[q], After(s, j));
  }

  lemma ReturnSpans(st: State, s: seq<Role>)
    requires Describes(st, s) && |st.callStack| >= 2
    ensures ReturnCall(st).spans == SpansOf(s + [Close(Calls)])
  {
    var next, r := ReturnCall(st), Close(Calls);
    SnocOpeners(s, r);
    CloseTop(st, s, Calls);
    ReturnParent(st, s);
    forall i | 0 <= i < |st.spans| ensures next.spans[i] == SpanOf(s + [r], i) {
      if i != Last(st.callStack) && i != Last(ButLast(st.callStack)) {
        CloseSpan(st, s, Calls, i);
      }
    }
  }

  lemma ReturnStep(st: State, s: seq<Role>)
    requires Describes(st, s) && |st.callStack| >= 2
    ensures Describes(ReturnCall(st), s + [Close(Calls)])
  {
    ReturnSpans(st, s);
    forall d: Key ensures Tracks(d, ReturnCall(st).Stack(d), s + [Close(Calls)]) {
      CloseStacks(st, s, Calls, d);
    }
  }
}
