/** Whole runs of the analysis: when it completes, what it computes, and what every step keeps. */
module Runs {
  import opened Wrappers
  import opened Sequences
  import opened GasModel
  import opened Trace
  import opened Script
  import opened Measures
  import opened Machine

  /** The analysis of a whole trace, without bounds on gas amounts. */
  ghost function Outcome(t: ExecutionTrace): Result<seq<SpanValue>, Panic> {
    var end := Run(Roles(t));
    if end.Failure? then Failure(end.error) else Finish(end.value)
  }

  ghost predicate NeverOverclosed(s: seq<Role>) {
    forall c: Key :: StaysOpen(c, s)
  }

  lemma InitialTracks(c: Key)
    ensures Tracks(c, INITIAL.Stack(c), [ROOT_OPEN])
  {
    assert Tracks(c, [], []);
    ConcatNothing([ROOT_OPEN]);
    if c == Calls {
      TracksOpen(c, [], [], ROOT_OPEN);
      ConcatNothing([0]);
    } else {
      TracksOther(c, [], [], ROOT_OPEN);
    }
  }

  lemma InitialDescribes()
    ensures Describes(INITIAL, [ROOT_OPEN])
  {
    ConcatNothing([ROOT_OPEN]);
    OpenSpans([], ROOT_OPEN);
    assert SpansOf([]) == [];
    forall c: Key ensures Tracks(c, INITIAL.Stack(c), [ROOT_OPEN]) {
      InitialTracks(c);
    }
  }

  lemma RootedNet(c: Key, s: seq<Role>)
    ensures Net(c, [ROOT_OPEN] + s) == Net(c, s) + if c == Calls then 1 else 0
  {
    NetConcat(c, [ROOT_OPEN], s);
    assert [ROOT_OPEN][..0] == [];
  }

  /** A step fails exactly when it closes a key that is not open. */
  lemma StepVerdict(st: State, s: seq<Role>, r: Role)
    requires StacksTrack(st, [ROOT_OPEN] + s) && NeverOverclosed(s)
    ensures Step(st, r).Failure? <==> r.Close? && Net(r.key, s) == 0
    ensures Step(st, r).Success? <==> NeverOverclosed(s + [r])
  {
    forall c: Key ensures Net(c, [ROOT_OPEN] + s) == |st.Stack(c)| {
      assert Tracks(c, st.Stack(c), [ROOT_OPEN] + s);
    }
    forall c: Key ensures StaysOpen(c, s + [r]) <==> Net(c, s) + Delta(c, r) >= 0 {
      SnocStaysOpen(c, s, r);
      SnocNet(c, s, r);
    }
    forall c: Key ensures Net(c, s) >= 0 {
      assert StaysOpen(c, s);
    }
    if r.Close? {
      RootedNet(r.key, s);
      assert StaysOpen(r.key, s + [r]) <==> Net(r.key, s) > 0;
    }
  }

  lemma StepDescribes(st: State, s: seq<Role>, r: Role)
    requires Describes(st, s) && Step(st, r).Success?
    ensures Describes(Step(st, r).value, s + [r])
  {
    match r
    case Charge(_, _) => ChargeStep(st, s, r);
    case Open(_, _) => OpenStep(st, s, r);
    case Close(Calls) => ReturnStep(st, s);
    case Close(Named(name)) => CloseNamedStep(st, s, name);
    case Inert => InertStep(st, s, r);
  }

  /**
   Every reachable state holds exactly the measured spans and exactly the open ones on its stacks,
   and the pass gets through a script exactly when nothing is closed that is not open.
   */
  lemma {:induction false} RunDescribes(s: seq<Role>)
    ensures Run(s).Success? <==> NeverOverclosed(s)
    ensures Run(s).Success? ==> Describes(Run(s).value, [ROOT_OPEN] + s)
  {
    if s == [] {
      InitialDescribes();
      assert [ROOT_OPEN] + s == [ROOT_OPEN];
    } else {
      var v, r := ButLast(s), Last(s);
      Unsnoc(s);
      RunDescribes(v);
      if Run(v).Success? {
        StepVerdict(Run(v).value, v, r);
        if Run(s).Success? {
          StepDescribes(Run(v).value, [ROOT_OPEN] + v, r);
          Unsnoc2([ROOT_OPEN], s);
        }
      } else {
        var c: Key :| !StaysOpen(c, v);
        SnocStaysOpen(c, v, r);
      }
    }
  }

  lemma RunSnoc(s: seq<Role>, r: Role)
    ensures Run(s + [r]) == if Run(s).Success? then Step(Run(s).value, r) else Run(s)
  {
    Snoc(s, r);
  }

  lemma ClosedSpans(st: State, s: seq<Role>, c: Key, i: nat)
    requires Describes(st, s) && st.Stack(c) != [] && (c == Calls ==> |st.callStack| == 1) && i < |st.spans|
    ensures i < |Openers(s + [Close(c)])|
    ensures SpanOf(s + [Close(c)], i) == if i == Last(st.Stack(c)) then Settled(st.spans[i]) else st.spans[i]
  {
    if i == Last(st.Stack(c)) {
      CloseTop(st, s, c);
    } else {
      CloseSpan(st, s, c, i);
    }
  }

  lemma {:induction false} FinishDescribes(st: State, s: seq<Role>)
    requires Describes(st, s) && |st.callStack| == 1
    ensures Finish(st) == Success(SpansOf(s + [ROOT_CLOSE]))
  {
    var spans, measured := Finish(st).value, SpansOf(s + [ROOT_CLOSE]);
    SnocOpeners(s, ROOT_CLOSE);
    assert |spans| == |measured| == |st.spans|;
    forall i | 0 <= i < |st.spans| ensures spans[i] == measured[i] {
      ClosedSpans(st, s, Calls, i);
    }
    assert spans == measured;
  }

  /** The analysis completes exactly on well-bracketed traces, and computes the gas measured on the trace. */
  lemma AnalysisMeasures(t: ExecutionTrace)
    ensures Outcome(t).Success? <==> WellBracketed(t)
    ensures Outcome(t).Success? ==> Outcome(t).value == SpansOf(FullScript(t))
  {
    var s := Roles(t);
    RunDescribes(s);
    if Run(s).Success? {
      var st := Run(s).value;
      assert Tracks(Calls, st.Stack(Calls), [ROOT_OPEN] + s);
      RootedNet(Calls, s);
      if |st.callStack| == 1 {
        FinishDescribes(st, [ROOT_OPEN] + s);
      }
    }
  }

  // ---------- Index discipline ----------

  /** The stacks hold increasing, in-range, pairwise distinct span indices, with Root at the bottom. */
  ghost predicate Disciplined(st: State) {
    && st.InRange()
    && st.callStack[0] == 0
    && (forall c: Key, h, k | 0 <= h < k < |st.Stack(c)| :: st.Stack(c)[h] < st.Stack(c)[k])
    && (forall c: Key, d: Key, i | i in st.Stack(c) && i in st.Stack(d) :: c == d)
  }

  lemma DescribedIsDisciplined(st: State, s: seq<Role>)
    requires StacksTrack(st, [ROOT_OPEN] + s) && StaysOpen(Calls, s)
    ensures Disciplined(st)
  {
    var rooted := [ROOT_OPEN] + s;
    forall c: Key, h, k | 0 <= h < k < |st.Stack(c)| ensures st.Stack(c)[h] < st.Stack(c)[k] {
      assert Tracks(c, st.Stack(c), rooted);
    }
    forall c: Key, d: Key, i | i in st.Stack(c) && i in st.Stack(d) ensures c == d {
      var h :| 0 <= h < |st.Stack(c)| && st.Stack(c)[h] == i;
      var k :| 0 <= k < |st.Stack(d)| && st.Stack(d)[k] == i;
      StackAt(st, rooted, c, h);
      StackAt(st, rooted, d, k);
    }
    RootIsFirst(s);
    var h := OpenOnStack(st, rooted, Calls, 0);
    assert Tracks(Calls, st.Stack(Calls), rooted);
  }

  lemma {:induction false} RootIsFirst(s: seq<Role>)
    ensures |Openers([ROOT_OPEN] + s)| > 0 && Openers([ROOT_OPEN] + s)[0] == 0
    ensures KeyOf([ROOT_OPEN] + s, 0) == Calls && After([ROOT_OPEN] + s, 0) == s
    ensures IdOf([ROOT_OPEN] + s, 0) == "Root"
  {
    if s == [] {
      assert [ROOT_OPEN] + s == [] + [ROOT_OPEN];
      SnocOpeners([], ROOT_OPEN);
    } else {
      RootIsFirst(ButLast(s));
      Unsnoc2([ROOT_OPEN], s);
      SnocOpeners([ROOT_OPEN] + ButLast(s), Last(s));
    }
  }

  /** Index discipline holds at every step of every run. */
  lemma IndexDiscipline(s: seq<Role>)
    requires Run(s).Success?
    ensures Disciplined(Run(s).value)
  {
    RunDescribes(s);
    assert StaysOpen(Calls, s);
    DescribedIsDisciplined(Run(s).value, s);
  }

  ghost predicate OnSomeStack(st: State, i: nat) {
    exists c: Key :: i in st.Stack(c)
  }

  lemma OnStackIsOpen(st: State, s: seq<Role>, i: nat)
    requires StacksTrack(st, s) && i < |st.spans|
    ensures OnSomeStack(st, i) <==> StaysOpen(KeyOf(s, i), After(s, i))
  {
    if c: Key :| i in st.Stack(c) {
      var h :| 0 <= h < |st.Stack(c)| && st.Stack(c)[h] == i;
      StackAt(st, s, c, h);
    }
    if StaysOpen(KeyOf(s, i), After(s, i)) {
      var h := OpenOnStack(st, s, KeyOf(s, i), i);
    }
  }

  /** Once a span is closed, no continuation of the run changes it or opens it again. */
  lemma {:induction false} ClosedForever(s: seq<Role>, more: seq<Role>, i: nat)
    requires Run(s).Success? && Run(s + more).Success?
    requires i < |Run(s).value.spans| && !OnSomeStack(Run(s).value, i)
    ensures i < |Run(s + more).value.spans|
    ensures Run(s + more).value.spans[i] == Run(s).value.spans[i]
    ensures !OnSomeStack(Run(s + more).value, i)
  {
    if more == [] {
      ConcatNothing(s);
    } else {
      var v, r := s + ButLast(more), Last(more);
      Unsnoc2(s, more);
      RunSnoc(v, r);
      ClosedForever(s, ButLast(more), i);
      ClosedStep(v, r, i);
    }
  }

  lemma {:induction false} ClosedStep(v: seq<Role>, r: Role, i: nat)
    requires Run(v).Success? && Run(v + [r]).Success?
    requires i < |Run(v).value.spans| && !OnSomeStack(Run(v).value, i)
    ensures i < |Run(v + [r]).value.spans|
    ensures Run(v + [r]).value.spans[i] == Run(v).value.spans[i]
    ensures !OnSomeStack(Run(v + [r]).value, i)
  {
    var s := [ROOT_OPEN] + v;
    RunDescribes(v);
    RunDescribes(v + [r]);
    Associate([ROOT_OPEN], v, [r]);
    OnStackIsOpen(Run(v).value, s, i);
    SnocOpener(s, r, i);
    ClosedStays(KeyOf(s, i), IdOf(s, i), After(s, i), r);
    OnStackIsOpen(Run(v + [r]).value, s + [r], i);
  }

  // ---------- Conservation ----------

  /** The gas held by the open calls from position `h` of the stack up. */
  ghost function HeldFrom(st: State, h: nat): Ledger
    requires st.InRange() && h <= |st.callStack|
    decreases |st.callStack| - h
  {
    if h == |st.callStack| then EMPTY_LEDGER else
    var v := st.spans[st.callStack[h]];
    v.own.Merge(v.total).Merge(HeldFrom(st, h + 1))
  }

  lemma HeldByTop(s: seq<Role>, i: nat)
    requires i < |Openers(s)| && IsOpen(Calls, s, i) && Net(Calls, After(s, i)) == 0
    ensures SpanOf(s, i).own.Merge(SpanOf(s, i).total) == Tally(After(s, i))
  {
    DirectAndNested(After(s, i));
  }

  lemma {:induction false} HeldWhileCalling(id: string, w: seq<Role>, a: seq<Role>, open: Role, b: seq<Role>)
    requires open.Open? && open.key == Calls && Net(Calls, a) == 0
    requires StaysOpen(Calls, b) && StaysOpen(Calls, w) && w == a + [open] + b
    ensures var v := Measure(Calls, id, w); v.own.Merge(v.total).Merge(Tally(b)) == Tally(w)
  {
    MeasureWhileRunning(id, a, open, b);
    DirectAndNested(a);
    TallyConcat(a + [open], b);
    SnocTally(a, open);
  }

  lemma HeldByCaller(s: seq<Role>, i: nat, j: nat)
    requires i < j < |Openers(s)| && IsOpen(Calls, s, i) && IsOpen(Calls, s, j)
    requires Net(Calls, After(s, i)) == 1 + Net(Calls, After(s, j))
    ensures SpanOf(s, i).own.Merge(SpanOf(s, i).total).Merge(Tally(After(s, j))) == Tally(After(s, i))
  {
    ParentWindow(s, i, j);
    var p, q := Openers(s)[i], Openers(s)[j];
    HeldWhileCalling(IdOf(s, i), After(s, i), s[p + 1..q], s[q], After(s, j));
  }

  /** A call on the stack and the call it is waiting for. */
  lemma {:induction false} StackPair(st: State, s: seq<Role>, h: nat)
    requires StacksTrack(st, s) && h + 1 < |st.callStack|
    ensures var i, j := st.callStack[h], st.callStack[h + 1];
            i < j < |Openers(s)| && IsOpen(Calls, s, i) && IsOpen(Calls, s, j)
            && Net(Calls, After(s, i)) == 1 + Net(Calls, After(s, j))
  {
    StackAt(st, s, Calls, h);
    StackAt(st, s, Calls, h + 1);
    StackOrder(st, s, Calls, h, h + 1);
  }

  lemma HeldFromTop(st: State, h: nat, v: SpanValue)
    requires st.InRange() && h + 1 == |st.callStack| && v == st.spans[st.callStack[h]]
    ensures HeldFrom(st, h) == v.own.Merge(v.total)
  {
    MergeEmpty(v.own.Merge(v.total));
  }

  lemma HeldAtTop(st: State, s: seq<Role>, h: nat, i: nat)
    requires Describes(st, s) && h + 1 == |st.callStack| && i == st.callStack[h]
    ensures i < |Openers(s)| && HeldFrom(st, h) == Tally(After(s, i))
  {
    StackAt(st, s, Calls, h);
    HeldFromTop(st, h, st.spans[i]);
    HeldByTop(s, i);
  }

  lemma HeldFromBelow(st: State, h: nat, v: SpanValue, above: Ledger)
    requires st.InRange() && h + 1 < |st.callStack| && v == st.spans[st.callStack[h]]
    requires above == HeldFrom(st, h + 1)
    ensures HeldFrom(st, h) == v.own.Merge(v.total).Merge(above)
  {
  }

  lemma HeldBelow(st: State, s: seq<Role>, h: nat, i: nat, j: nat)
    requires Describes(st, s) && h + 1 < |st.callStack| && i == st.callStack[h] && j == st.callStack[h + 1]
    requires j < |Openers(s)| && HeldFrom(st, h + 1) == Tally(After(s, j))
    ensures i < |Openers(s)| && HeldFrom(st, h) == Tally(After(s, i))
  {
    StackPair(st, s, h);
    HeldFromBelow(st, h, st.spans[i], Tally(After(s, j)));
    HeldByCaller(s, i, j);
  }

  lemma {:induction false} HeldIsCharged(st: State, s: seq<Role>, h: nat, i: nat)
    requires Describes(st, s) && h < |st.callStack| && i == st.callStack[h]
    ensures i < |Openers(s)| && HeldFrom(st, h) == Tally(After(s, i))
    decreases |st.callStack| - h
  {
    if h + 1 == |st.callStack| {
      HeldAtTop(st, s, h, i);
    } else {
      var j := st.callStack[h + 1];
      HeldIsCharged(st, s, h + 1, j);
      HeldBelow(st, s, h, i, j);
    }
  }

  /** At every step the open calls together hold exactly the gas charged so far, by name and in total. */
  lemma Conservation(s: seq<Role>)
    requires Run(s).Success?
    ensures HeldFrom(Run(s).value, 0) == Tally(s)
  {
    var st := Run(s).value;
    RunDescribes(s);
    IndexDiscipline(s);
    HeldIsCharged(st, [ROOT_OPEN] + s, 0, 0);
    RootIsFirst(s);
  }

  // ---------- Bounds ----------

  ghost predicate AllFit(spans: seq<SpanValue>) {
    forall i | 0 <= i < |spans| :: spans[i].own.Fits() && spans[i].total.Fits()
  }

  /** The sum and the breakdown of every span of an analysis agree. */
  lemma SpansAreBalanced(s: seq<Role>, i: nat)
    requires i < |Openers(s)|
    ensures SpanOf(s, i).own.Balanced() && SpanOf(s, i).total.Balanced()
  {
    var c, w := KeyOf(s, i), After(s, i);
    TallyBalanced(Window(c, w));
    TallyBalanced(Direct(Window(c, w)));
    TallyBalanced(Nested(Level(Window(c, w))));
    TallyBalanced([]);
  }

  lemma PartsAtMost(w: seq<Role>)
    ensures Tally(Direct(w)).sum.AtMost(Tally(w).sum) && Tally(Nested(w)).sum.AtMost(Tally(w).sum)
  {
    DirectAndNested(w);
  }

  lemma WindowAtMost(c: Key, w: seq<Role>, seen: seq<Role>)
    requires seen == Window(c, w)
    ensures Tally(seen).sum.AtMost(Tally(w).sum)
  {
    WindowIsPrefix(c, w);
    PrefixAtMost(w, |seen|);
  }

  lemma LevelAtMost(w: seq<Role>, level: seq<Role>)
    requires level == Level(w)
    ensures Tally(level).sum.AtMost(Tally(w).sum)
  {
    LevelIsPrefix(w);
    PrefixAtMost(w, |level|);
  }

  lemma {:induction false} MeasureAtMost(c: Key, id: string, w: seq<Role>, v: SpanValue)
    requires v == Measure(c, id, w)
    ensures v.own.sum.AtMost(Tally(w).sum) && v.total.sum.AtMost(Tally(w).sum)
  {
    var seen := Window(c, w);
    var level := Level(seen);
    WindowAtMost(c, w, seen);
    LevelAtMost(seen, level);
    PartsAtMost(seen);
    PartsAtMost(level);
  }

  lemma PrefixAtMost(w: seq<Role>, n: nat)
    requires n <= |w|
    ensures Tally(w[..n]).sum.AtMost(Tally(w).sum)
  {
    SplitAt(w, n);
    TallyConcat(w[..n], w[n..]);
  }

  lemma AfterAtMost(s: seq<Role>, i: nat, w: seq<Role>)
    requires i < |Openers(s)| && w == After(s, i)
    ensures Tally(w).sum.AtMost(Tally(s).sum)
  {
    var n := Openers(s)[i] + 1;
    SplitAt(s, n);
    TallyConcat(s[..n], w);
  }

  /** No span holds more gas than was charged in all. */
  lemma {:induction false} SpanAtMost(s: seq<Role>, i: nat, v: SpanValue)
    requires i < |Openers(s)| && v == SpanOf(s, i)
    ensures v.own.sum.AtMost(Tally(s).sum) && v.total.sum.AtMost(Tally(s).sum)
  {
    var c, id, w := KeyOf(s, i), IdOf(s, i), After(s, i);
    AfterAtMost(s, i, w);
    MeasureAtMost(c, id, w, v);
  }

  lemma SpanFits(s: seq<Role>, i: nat, v: SpanValue)
    requires i < |Openers(s)| && v == SpanOf(s, i) && Tally(s).sum.Fits()
    ensures v.own.Fits() && v.total.Fits()
  {
    SpanAtMost(s, i, v);
    SpansAreBalanced(s, i);
    BalancedFits(v.own);
    BalancedFits(v.total);
  }

  /** If everything charged fits in u64, so does every amount of every span. */
  lemma SpansFit(s: seq<Role>)
    requires Tally(s).sum.Fits()
    ensures AllFit(SpansOf(s))
  {
    forall i | 0 <= i < |Openers(s)| ensures SpanOf(s, i).own.Fits() && SpanOf(s, i).total.Fits() {
      SpanFits(s, i, SpanOf(s, i));
    }
  }

  // ---------- Failing runs ----------

  lemma {:induction false} FailureIsFinal(a: seq<Role>, b: seq<Role>)
    requires Run(a).Failure?
    ensures Run(a + b) == Run(a)
  {
    if b == [] {
      ConcatNothing(a);
    } else {
      FailureIsFinal(a, ButLast(b));
      Unsnoc2(a, b);
      RunSnoc(a + ButLast(b), Last(b));
    }
  }

  lemma RolesSplit(t: ExecutionTrace, k: nat)
    requires k <= |t|
    ensures Roles(t) == Roles(t[..k]) + Roles(t[k..])
  {
  }

  lemma FailedPrefix(t: ExecutionTrace, k: nat)
    requires k <= |t| && Run(Roles(t[..k])).Failure?
    ensures Outcome(t) == Failure(Run(Roles(t[..k])).error)
  {
    RolesSplit(t, k);
    FailureIsFinal(Roles(t[..k]), Roles(t[k..]));
  }

  lemma RootedTally(s: seq<Role>)
    ensures Tally([ROOT_OPEN] + s) == Tally(s)
  {
    TallyConcat([ROOT_OPEN], s);
    assert [ROOT_OPEN][..0] == [];
    MergeEmpty(Tally(s));
  }

  lemma PrefixTallyFits(t: ExecutionTrace, k: nat)
    requires k <= |t| && TotalGas(t).Fits()
    ensures Tally([ROOT_OPEN] + Roles(t[..k])).sum.Fits()
  {
    var s := Roles(t[..k]);
    RolesSplit(t, k);
    assert Roles(t)[..|s|] == s;
    PrefixAtMost(Roles(t), |s|);
    RootedTally(s);
  }

  /** If the gas of the whole trace fits in u64, so does every amount held in a reachable state. */
  lemma ReachableFits(t: ExecutionTrace, k: nat)
    requires k <= |t| && Run(Roles(t[..k])).Success?
    ensures TotalGas(t).Fits() ==> AllFit(Run(Roles(t[..k])).value.spans)
  {
    if TotalGas(t).Fits() {
      RunDescribes(Roles(t[..k]));
      PrefixTallyFits(t, k);
      SpansFit([ROOT_OPEN] + Roles(t[..k]));
    }
  }

  /** The same for settling the innermost call of a reachable state. */
  lemma ClosingFits(t: ExecutionTrace, k: nat)
    requires k <= |t| && Run(Roles(t[..k])).Success?
    ensures var st := Run(Roles(t[..k])).value;
            TotalGas(t).Fits() ==> Settled(st.spans[Last(st.callStack)]).total.Fits()
  {
    if TotalGas(t).Fits() {
      var st, s := Run(Roles(t[..k])).value, [ROOT_OPEN] + Roles(t[..k]);
      RunDescribes(Roles(t[..k]));
      PrefixTallyFits(t, k);
      SnocTally(s, ROOT_CLOSE);
      SpansFit(s + [ROOT_CLOSE]);
      CloseTop(st, s, Calls);
      assert SpansOf(s + [ROOT_CLOSE])[Last(st.callStack)] == Settled(st.spans[Last(st.callStack)]);
    }
  }

  /** Root ends up with every charge of the trace, whatever named spans there are. */
  lemma RootTotal(t: ExecutionTrace)
    requires WellBracketed(t)
    ensures SpansOf(FullScript(t)) != []
    ensures SpansOf(FullScript(t))[0] == SpanValue("Root", Tally(Direct(Roles(t))), Tally(Roles(t)))
  {
    var s := Roles(t);
    RootIsFirst(s);
    SnocOpener([ROOT_OPEN] + s, ROOT_CLOSE, 0);
    assert StaysOpen(Calls, s);
    MatchingClose(Calls, s);
  }
}
