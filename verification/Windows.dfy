/** What the spans of a complete analysis mean in terms of positions in the trace. */
module Windows {
  import opened Sequences
  import opened Wrappers
  import opened GasModel
  import opened Trace
  import opened Script
  import opened Measures
  import opened Machine
  import opened Runs
  import opened CallTree

  // ---------- Ledgers ----------

  /** Gas of the charges that carry a given name. */
  function ChargedUnder(w: seq<Role>, name: string): Gas {
    if w == [] then NO_GAS else
    var before := ChargedUnder(ButLast(w), name);
    if Last(w).Charge? && Last(w).name == name then before.Plus(Last(w).gas) else before
  }

  /** Gas of all charges. */
  function Charged(w: seq<Role>): Gas {
    if w == [] then NO_GAS else
    if Last(w).Charge? then Charged(ButLast(w)).Plus(Last(w).gas) else Charged(ButLast(w))
  }

  ghost predicate Names(w: seq<Role>, name: string) {
    exists i :: 0 <= i < |w| && w[i].Charge? && w[i].name == name
  }

  /** A tally lists exactly the names that occur, each with the gas charged under it, and sums everything. */
  lemma {:induction false} TallyMeaning(w: seq<Role>, name: string)
    ensures Tally(w).sum == Charged(w)
    ensures name in Tally(w).byName <==> Names(w, name)
    ensures Tally(w).At(name) == ChargedUnder(w, name)
  {
    if w != [] {
      var v := ButLast(w);
      TallyMeaning(v, name);
      assert Names(w, name) <==> Names(v, name) || (Last(w).Charge? && Last(w).name == name) by {
        if i :| 0 <= i < |v| && v[i].Charge? && v[i].name == name {
          assert w[i] == v[i];
        }
        if i :| 0 <= i < |w| && w[i].Charge? && w[i].name == name {
          assert i < |v| ==> v[i] == w[i];
        }
        assert w[|w| - 1] == Last(w);
      }
    }
  }

  // ---------- Windows ----------

  /** The window of a closed span ends at the first point where its key is closed more often than opened. */
  lemma {:induction false} WindowEndsAtMatch(c: Key, w: seq<Role>)
    requires !StaysOpen(c, w)
    ensures var n := |Window(c, w)|;
            && n < |w| && Window(c, w) == w[..n] && w[n] == Close(c)
            && Net(c, w[..n]) == 0 && forall m | 0 <= m <= n :: Net(c, w[..m]) >= 0
  {
    var v, r := ButLast(w), Last(w);
    Unsnoc(w);
    SnocNet(c, v, r);
    SnocStaysOpen(c, v, r);
    SnocWindow(c, v, r);
    if StaysOpen(c, v) {
      OpenPrefixes(c, v);
      assert w[..|v|] == v;
      assert forall m | 0 <= m <= |v| :: w[..m] == v[..m];
    } else {
      WindowEndsAtMatch(c, v);
      assert forall m | 0 <= m <= |v| :: w[..m] == v[..m];
    }
  }

  lemma {:induction false} OpenPrefixes(c: Key, w: seq<Role>)
    requires StaysOpen(c, w)
    ensures Window(c, w) == w
    ensures forall m | 0 <= m <= |w| :: Net(c, w[..m]) >= 0
  {
    assert w[..|w|] == w;
    if w != [] {
      OpenPrefixes(c, ButLast(w));
      assert forall m | 0 <= m < |w| :: w[..m] == ButLast(w)[..m];
    }
  }

  // ---------- Spans at their opening events ----------

  /** The index of the span opened by the p-th event: Root is span 0. */
  function SpanIndex(t: ExecutionTrace, p: nat): nat
    requires p < |t|
  {
    1 + |Openers(Roles(t[..p]))|
  }

  lemma {:induction false} RootedOpeners(s: seq<Role>)
    ensures |Openers([ROOT_OPEN] + s)| == 1 + |Openers(s)|
  {
    if s == [] {
      ConcatNothing([ROOT_OPEN]);
      SnocOpeners([], ROOT_OPEN);
    } else {
      RootedOpeners(ButLast(s));
      Unsnoc2([ROOT_OPEN], s);
      SnocOpeners([ROOT_OPEN] + ButLast(s), Last(s));
    }
  }

  lemma OpenedAt(s: seq<Role>, a: seq<Role>, open: Role, y: seq<Role>)
    requires s == a + [open] + y && open.Open?
    ensures |Openers(a)| < |Openers(s)| && KeyOf(s, |Openers(a)|) == open.key && After(s, |Openers(a)|) == y
    ensures IdOf(s, |Openers(a)|) == SpanId(|Openers(a)|, open.tag)
  {
    SnocOpeners(a, open);
    OpenersPrefix(a + [open], y);
    assert Openers(s)[|Openers(a)|] == |a|;
  }

  lemma RolesAround(t: ExecutionTrace, p: nat)
    requires p < |t|
    ensures FullScript(t) == ([ROOT_OPEN] + Roles(t[..p])) + [RoleOf(t[p])] + (Roles(t[p + 1..]) + [ROOT_CLOSE])
  {
    assert Roles(t) == Roles(t[..p]) + [RoleOf(t[p])] + Roles(t[p + 1..]);
  }

  lemma SpanAtEvent(t: ExecutionTrace, p: nat)
    requires p < |t| && RoleOf(t[p]).Open?
    ensures SpanIndex(t, p) < |SpansOf(FullScript(t))|
    ensures SpansOf(FullScript(t))[SpanIndex(t, p)]
         == Measure(RoleOf(t[p]).key, SpanId(SpanIndex(t, p), RoleOf(t[p]).tag), Roles(t[p + 1..]) + [ROOT_CLOSE])
  {
    RolesAround(t, p);
    RootedOpeners(Roles(t[..p]));
    OpenedAt(FullScript(t), [ROOT_OPEN] + Roles(t[..p]), RoleOf(t[p]), Roles(t[p + 1..]) + [ROOT_CLOSE]);
  }

  /** Event `q` closes what event `p` opened: in between, the key is opened and closed equally often. */
  ghost predicate Matches(t: ExecutionTrace, p: nat, q: nat) {
    && p < q < |t|
    && RoleOf(t[p]).Open? && RoleOf(t[q]) == Close(RoleOf(t[p]).key)
    && StaysOpen(RoleOf(t[p]).key, Roles(t[p + 1..q]))
    && Net(RoleOf(t[p]).key, Roles(t[p + 1..q])) == 0
  }

  lemma RestOfTrace(t: ExecutionTrace, p: nat, q: nat)
    requires p < q < |t|
    ensures Roles(t[p + 1..]) + [ROOT_CLOSE]
         == Roles(t[p + 1..q]) + [RoleOf(t[q])] + (Roles(t[q + 1..]) + [ROOT_CLOSE])
  {
    assert t[p + 1..] == t[p + 1..q] + [t[q]] + t[q + 1..];
  }

  lemma WindowBetween(t: ExecutionTrace, p: nat, q: nat)
    requires Matches(t, p, q)
    ensures var c, w := RoleOf(t[p]).key, Roles(t[p + 1..]) + [ROOT_CLOSE];
            !StaysOpen(c, w) && Window(c, w) == Roles(t[p + 1..q])
  {
    var c, body := RoleOf(t[p]).key, Roles(t[p + 1..q]);
    RestOfTrace(t, p, q);
    MatchingClose(c, body);
    ClosedWindow(c, body + [Close(c)], Roles(t[q + 1..]) + [ROOT_CLOSE]);
  }

  /** A named span that is closed measures exactly the charges between its start and its matching end. */
  lemma NamedSpanMeasures(t: ExecutionTrace, p: nat, q: nat)
    requires Matches(t, p, q) && RoleOf(t[p]).key.Named?
    ensures SpanIndex(t, p) < |SpansOf(FullScript(t))|
    ensures var span := SpansOf(FullScript(t))[SpanIndex(t, p)];
            span.own == Tally(Roles(t[p + 1..q])) && span.total == Tally(Roles(t[p + 1..q]))
  {
    SpanAtEvent(t, p);
    WindowBetween(t, p, q);
  }

  /** A named span that is never closed measures the rest of the trace, and has no total. */
  lemma UnclosedNamedSpan(t: ExecutionTrace, p: nat)
    requires p < |t| && RoleOf(t[p]).Open? && RoleOf(t[p]).key.Named?
    requires StaysOpen(RoleOf(t[p]).key, Roles(t[p + 1..]))
    ensures SpanIndex(t, p) < |SpansOf(FullScript(t))|
    ensures var span := SpansOf(FullScript(t))[SpanIndex(t, p)];
            span.own == Tally(Roles(t[p + 1..])) && span.total == EMPTY_LEDGER
  {
    var c, w := RoleOf(t[p]).key, Roles(t[p + 1..]);
    SpanAtEvent(t, p);
    SnocNet(c, w, ROOT_CLOSE);
    SnocStaysOpen(c, w, ROOT_CLOSE);
    SnocTally(w, ROOT_CLOSE);
    OpenNetNonNegative(c, w);
    OpenNetNonNegative(c, w + [ROOT_CLOSE]);
  }

  /** A call span totals everything charged until it returns, and owns what is charged outside its own calls. */
  lemma CallSpanMeasures(t: ExecutionTrace, p: nat, q: nat)
    requires Matches(t, p, q) && RoleOf(t[p]).key == Calls
    ensures SpanIndex(t, p) < |SpansOf(FullScript(t))|
    ensures var span := SpansOf(FullScript(t))[SpanIndex(t, p)];
            span.own == Tally(Direct(Roles(t[p + 1..q]))) && span.total == Tally(Roles(t[p + 1..q]))
  {
    SpanAtEvent(t, p);
    WindowBetween(t, p, q);
  }

  /** In a well-bracketed trace every call and every closed named span has its matching event. */
  lemma {:induction false} MatchExists(t: ExecutionTrace, p: nat) returns (q: nat)
    requires p < |t| && RoleOf(t[p]).Open? && !StaysOpen(RoleOf(t[p]).key, Roles(t[p + 1..]))
    ensures Matches(t, p, q)
  {
    var c, w := RoleOf(t[p]).key, Roles(t[p + 1..]);
    WindowEndsAtMatch(c, w);
    WindowIsPrefix(c, w);
    var n := |Window(c, w)|;
    q := p + 1 + n;
    assert t[p + 1..q] == t[p + 1..][..n];
    assert Roles(t[p + 1..q]) == w[..n];
  }

  /** In a well-bracketed trace every call returns. */
  lemma EveryCallReturns(t: ExecutionTrace, p: nat)
    requires WellBracketed(t) && p < |t| && t[p].Call?
    ensures !StaysOpen(Calls, Roles(t[p + 1..]))
  {
    var a, b := Roles(t[..p]), Roles(t[p + 1..]);
    assert Roles(t) == a + [RoleOf(t[p])] + b;
    NetConcat(Calls, a + [RoleOf(t[p])], b);
    SnocNet(Calls, a, RoleOf(t[p]));
    assert StaysOpen(Calls, Roles(t));
    OpenPrefixes(Calls, Roles(t));
    assert Roles(t)[..p] == a;
    if StaysOpen(Calls, b) {
      OpenNetNonNegative(Calls, b);
    }
  }

  // ---------- Which span an end closes ----------

  lemma CloseHasOpen(s: seq<Role>, c: Key)
    requires Run(s).Success? && Run(s + [Close(c)]).Success?
    ensures StacksTrack(Run(s).value, [ROOT_OPEN] + s) && Run(s).value.Stack(c) != []
  {
    RunDescribes(s);
    RunDescribes(s + [Close(c)]);
    assert StaysOpen(c, s + [Close(c)]);
    SnocStaysOpen(c, s, Close(c));
    SnocNet(c, s, Close(c));
    RootedNet(c, s);
    assert Tracks(c, Run(s).value.Stack(c), [ROOT_OPEN] + s);
  }

  lemma TopIsClosed(st: State, s: seq<Role>, c: Key, i: nat)
    requires StacksTrack(st, s) && st.Stack(c) != [] && i == Last(st.Stack(c))
    ensures i < |Openers(s)| && IsOpen(c, s, i)
    ensures i < |Openers(s + [Close(c)])| && !IsOpen(c, s + [Close(c)], i)
  {
    StackAt(st, s, c, |st.Stack(c)| - 1);
    OpenTopCloses(s, c, i);
  }

  lemma OpenTopCloses(s: seq<Role>, c: Key, i: nat)
    requires i < |Openers(s)| && IsOpen(c, s, i) && Net(c, After(s, i)) == 0
    ensures i < |Openers(s + [Close(c)])| && !IsOpen(c, s + [Close(c)], i)
  {
    IsOpenSnoc(c, s, Close(c), i);
  }

  lemma EarlierStaysOpen(st: State, s: seq<Role>, c: Key, j: nat)
    requires StacksTrack(st, s) && st.Stack(c) != []
    requires j < |Openers(s)| && IsOpen(c, s, j) && j != Last(st.Stack(c))
    ensures j < Last(st.Stack(c)) && j < |Openers(s + [Close(c)])| && IsOpen(c, s + [Close(c)], j)
  {
    var h := OpenOnStack(st, s, c, j);
    StackOrder(st, s, c, h, |st.Stack(c)| - 1);
    IsOpenSnoc(c, s, Close(c), j);
  }

  /** A close goes to the span opened last among those still open under its key. */
  lemma {:induction false} CloseIsLastOpened(s: seq<Role>, c: Key) returns (i: nat)
    requires Run(s).Success? && Run(s + [Close(c)]).Success?
    ensures var rooted := [ROOT_OPEN] + s;
            && i < |Openers(rooted)| && Openers(rooted + [Close(c)]) == Openers(rooted)
            && IsOpen(c, rooted, i) && !IsOpen(c, rooted + [Close(c)], i)
            && forall j | 0 <= j < |Openers(rooted)| && j != i && IsOpen(c, rooted, j) ::
                 j < i && IsOpen(c, rooted + [Close(c)], j)
  {
    var rooted, st := [ROOT_OPEN] + s, Run(s).value;
    CloseHasOpen(s, c);
    i := Last(st.Stack(c));
    TopIsClosed(st, rooted, c, i);
    SnocOpeners(rooted, Close(c));
    forall j | 0 <= j < |Openers(rooted)| && j != i && IsOpen(c, rooted, j)
      ensures j < i && IsOpen(c, rooted + [Close(c)], j)
    {
      EarlierStaysOpen(st, rooted, c, j);
    }
  }

  // ---------- Why a run stops ----------

  ghost predicate EverOpened(c: Key, s: seq<Role>) {
    exists i :: 0 <= i < |s| && s[i].Open? && s[i].key == c
  }

  lemma EverOpenedSnoc(c: Key, s: seq<Role>, r: Role)
    ensures EverOpened(c, s + [r]) <==> EverOpened(c, s) || (r.Open? && r.key == c)
  {
    var w := s + [r];
    if i :| 0 <= i < |s| && s[i].Open? && s[i].key == c {
      assert w[i] == s[i];
    }
    assert w[|s|] == r;
  }

  /** The label map knows exactly the labels that have been started. */
  lemma {:induction false} KnownLabels(s: seq<Role>, name: string)
    requires Run(s).Success?
    ensures name in Run(s).value.named <==> EverOpened(Named(name), s)
  {
    if s != [] {
      KnownLabels(ButLast(s), name);
      EverOpenedSnoc(Named(name), ButLast(s), Last(s));
      Unsnoc(s);
    }
  }

  /** The failure of the first close without a matching open. */
  ghost function PanicAt(s: seq<Role>, k: nat): Panic
    requires k < |s| && s[k].Close?
  {
    if s[k].key == Calls then UnmatchedReturn
    else if EverOpened(s[k].key, s[..k]) then LabelNotOpen
    else UnknownLabel
  }

  /** A run stops at the first role that closes a key as often as it has been opened, and says which kind it is. */
  lemma {:induction false} FirstFailure(s: seq<Role>) returns (k: nat)
    requires Run(s).Failure?
    ensures k < |s| && Run(s[..k]).Success? && s[k].Close? && Net(s[k].key, s[..k]) == 0
    ensures Run(s) == Failure(PanicAt(s, k))
  {
    var v, r := ButLast(s), Last(s);
    Unsnoc(s);
    if Run(v).Failure? {
      k := FirstFailure(v);
      assert s[..k] == v[..k];
    } else {
      k := |v|;
      RunDescribes(v);
      StepVerdict(Run(v).value, v, r);
      RootedNet(r.key, v);
      if r.key.Named? {
        KnownLabels(v, r.key.name);
      }
    }
  }

  /** Which panic a trace runs into, when its gas fits: an unmatched close, or else a call left open. */
  lemma WhyItPanics(t: ExecutionTrace)
    requires Outcome(t).Failure?
    ensures Outcome(t).error == UnclosedCall <==> NeverOverclosed(Roles(t))
    ensures NeverOverclosed(Roles(t)) ==> Net(Calls, Roles(t)) > 0
    ensures !NeverOverclosed(Roles(t)) ==>
              exists k :: 0 <= k < |t| && RoleOf(t[k]).Close? && NeverOverclosed(Roles(t)[..k])
                && Net(RoleOf(t[k]).key, Roles(t)[..k]) == 0 && Outcome(t).error == PanicAt(Roles(t), k)
  {
    var s := Roles(t);
    RunDescribes(s);
    if Run(s).Success? {
      RootedNet(Calls, s);
      assert Tracks(Calls, Run(s).value.Stack(Calls), [ROOT_OPEN] + s);
    } else {
      var k := FirstFailure(s);
      RunDescribes(s[..k]);
      assert s[k] == RoleOf(t[k]);
    }
  }
}
