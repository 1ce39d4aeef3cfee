/** What the analysis of a trace means in terms of the events themselves. */
module EventSpans {
  import opened Wrappers
  import opened Sequences
  import opened GasModel
  import opened Trace
  import opened Markers
  import opened Text
  import opened Events
  import opened Script
  import opened Measures
  import opened Machine
  import opened Runs
  import opened CallTree
  import opened Windows
  import opened SpanIds

  // ---------- Gas ----------

  lemma {:induction false} TallyReads(t: ExecutionTrace, name: string)
    ensures Tally(Roles(t)).sum == Gas(ComputeCharged(t), OtherCharged(t))
    ensures HoldsUnder(Tally(Roles(t)), t, name)
  {
    if t != [] {
      var v, e := ButLast(t), Last(t);
      TallyReads(v, name);
      Unsnoc(t);
      RolesSnoc(v, e);
      SnocTally(Roles(v), RoleOf(e));
      MentionsLast(t, name);
      if !MentionsCharge(v, name) {
        UnmentionedUnder(v, name);
      }
    }
  }

  lemma MentionsLast(t: ExecutionTrace, name: string)
    requires t != []
    ensures MentionsCharge(t, name) <==> MentionsCharge(ButLast(t), name) || ChargesUnder(Last(t), name)
  {
    var v := ButLast(t);
    if i :| 0 <= i < |v| && ChargesUnder(v[i], name) {
      assert ChargesUnder(t[i], name);
    }
    if i :| 0 <= i < |t| && ChargesUnder(t[i], name) {
      assert i < |v| ==> ChargesUnder(v[i], name);
    }
    assert t[|t| - 1] == Last(t);
  }

  lemma {:induction false} UnmentionedUnder(t: ExecutionTrace, name: string)
    requires !MentionsCharge(t, name)
    ensures ComputeUnder(t, name) == 0 && OtherUnder(t, name) == 0
  {
    if t != [] {
      MentionsLast(t, name);
      UnmentionedUnder(ButLast(t), name);
    }
  }

  /** The tally of a stretch holds, by name and in both dimensions, what its gas events charge. */
  lemma TallyHolds(t: ExecutionTrace)
    ensures Holds(Tally(Roles(t)), t)
  {
    TallyReads(t, "");
    forall name ensures HoldsUnder(Tally(Roles(t)), t, name) {
      TallyReads(t, name);
    }
  }

  /** All gas charged by a trace is the sum of the amounts in its gas events. */
  lemma TotalGasMeaning(t: ExecutionTrace)
    ensures TotalGas(t) == Gas(ComputeCharged(t), OtherCharged(t))
  {
    TallyReads(t, "");
  }

  // ---------- Calls ----------

  lemma {:induction false} CallDepthIsNet(t: ExecutionTrace)
    ensures Net(Calls, Roles(t)) == CallDepth(t)
  {
    if t != [] {
      CallDepthIsNet(ButLast(t));
      Unsnoc(t);
      RolesSnoc(ButLast(t), Last(t));
      SnocNet(Calls, Roles(ButLast(t)), RoleOf(Last(t)));
    }
  }

  /** The charges outside all calls. */
  lemma {:induction false} DirectRoles(t: ExecutionTrace)
    ensures Direct(Roles(t)) == Roles(DirectCharges(t))
  {
    if t != [] {
      var v, e := ButLast(t), Last(t);
      DirectRoles(v);
      Unsnoc(t);
      RolesSnoc(v, e);
      SnocDirect(Roles(v), RoleOf(e));
      CallDepthIsNet(v);
      RolesSnoc(DirectCharges(v), e);
      ConcatNothing(DirectCharges(v));
    }
  }

  lemma {:induction false} OpenOnAllPrefixes(c: Key, w: seq<Role>)
    ensures StaysOpen(c, w) <==> forall m | 0 <= m <= |w| :: Net(c, w[..m]) >= 0
  {
    assert w[..|w|] == w;
    if w != [] {
      OpenOnAllPrefixes(c, ButLast(w));
      assert forall m | 0 <= m < |w| :: w[..m] == ButLast(w)[..m];
    }
  }

  lemma RolesPrefix(t: ExecutionTrace, k: nat)
    requires k <= |t|
    ensures Roles(t)[..k] == Roles(t[..k])
  {
  }

  lemma CallsStayOpenMeaning(t: ExecutionTrace)
    ensures StaysOpen(Calls, Roles(t)) <==> CallsStayOpen(t)
  {
    OpenOnAllPrefixes(Calls, Roles(t));
    forall k | 0 <= k <= |t| ensures Net(Calls, Roles(t)[..k]) == CallDepth(t[..k]) {
      RolesPrefix(t, k);
      CallDepthIsNet(t[..k]);
    }
  }

  // ---------- Span messages ----------

  lemma {:induction false} TrimMeans(text: string, name: string)
    ensures TrimsTo(text, name) <==> Trim(text) == name
  {
    if TrimsTo(text, name) {
      var i, j :| 0 <= i <= j <= |text| && TrimsAt(text, i, j) && name == text[i..j];
      assert text == text[..i] + name + text[j..];
      TrimMeaning(text, text[..i], name, text[j..]);
    }
    var i, j := TrimRange(text);
    assert TrimsAt(text, i, j) && Trim(text) == text[i..j];
  }

  lemma WrittenFirst(msg: string, pattern: string, i: nat) returns (before: string, text: string)
    requires Find(msg, pattern) == Some(i)
    ensures msg == before + pattern + text && before == msg[..i] && text == msg[i + |pattern|..]
    ensures pattern != [] ==> !Occurs(before, pattern)
  {
    before, text := msg[..i], msg[i + |pattern|..];
    assert msg == msg[..i] + msg[i..i + |pattern|] + msg[i + |pattern|..];
    if pattern != [] && Occurs(before, pattern) {
      var j: nat :| OccursAt(before, pattern, j);
      assert msg[j..j + |pattern|] == before[j..j + |pattern|];
      assert OccursAt(msg, pattern, j);
    }
  }

  /** A message starts a span exactly if it is read that way. */
  lemma StartMeaning(e: ExecutionEvent, name: string)
    ensures StartsSpan(e, name) <==> e.Log? && ReadMarker(e.msg) == StartOf(name)
  {
    if StartsSpan(e, name) {
      var before: string, text: string :| e.msg == before + "SpanStart:" + text
        && !Occurs(before, "SpanStart:") && TrimsTo(text, name);
      StartMarkerRead(before, text);
      TrimMeans(text, name);
    }
    if e.Log? && ReadMarker(e.msg) == StartOf(name) {
      var before, text := WrittenFirst(e.msg, "SpanStart:", Find(e.msg, "SpanStart:").value);
      TrimMeans(text, name);
      assert e.msg == before + "SpanStart:" + text;
    }
  }

  /** A message ends a span exactly if it is read that way. */
  lemma EndMeaning(e: ExecutionEvent, name: string)
    ensures EndsSpan(e, name) <==> e.Log? && ReadMarker(e.msg) == EndOf(name)
  {
    if EndsSpan(e, name) {
      var before: string, text: string :| e.msg == before + "SpanEnd:" + text
        && !Occurs(before, "SpanEnd:") && !Occurs(e.msg, "SpanStart:") && TrimsTo(text, name);
      StartAroundEnd(before, text);
      EndMarkerRead(before, text);
      TrimMeans(text, name);
    }
    if e.Log? && ReadMarker(e.msg) == EndOf(name) {
      var before, text := WrittenFirst(e.msg, "SpanEnd:", Find(e.msg, "SpanEnd:").value);
      TrimMeans(text, name);
      assert e.msg == before + "SpanEnd:" + text;
    }
  }

  /** The part an event plays, said on the event: what it charges, opens and closes. */
  lemma RoleMeaning(e: ExecutionEvent, name: string)
    ensures RoleOf(e) == Open(Named(name), "Span(" + name + ")") <==> StartsSpan(e, name)
    ensures RoleOf(e).Open? && RoleOf(e).key == Named(name) <==> StartsSpan(e, name)
    ensures RoleOf(e) == Close(Named(name)) <==> EndsSpan(e, name)
    ensures RoleOf(e).Open? && RoleOf(e).key == Calls <==> e.Call?
    ensures RoleOf(e) == Close(Calls) <==> Returns(e)
    ensures RoleOf(e).Charge? <==> e.GasCharged?
    ensures e.GasCharged? ==> RoleOf(e) == Charge(e.name, Gas(e.computeMilli, e.otherMilli))
  {
    StartMeaning(e, name);
    EndMeaning(e, name);
  }

  lemma {:induction false} LabelDepthIsNet(t: ExecutionTrace, name: string)
    ensures Net(Named(name), Roles(t)) == LabelDepth(t, name)
  {
    if t != [] {
      LabelDepthIsNet(ButLast(t), name);
      Unsnoc(t);
      RolesSnoc(ButLast(t), Last(t));
      SnocNet(Named(name), Roles(ButLast(t)), RoleOf(Last(t)));
      RoleMeaning(Last(t), name);
    }
  }

  lemma LabelStaysOpenMeaning(t: ExecutionTrace, name: string)
    ensures StaysOpen(Named(name), Roles(t)) <==> LabelStaysOpen(t, name)
  {
    OpenOnAllPrefixes(Named(name), Roles(t));
    forall k | 0 <= k <= |t| ensures Net(Named(name), Roles(t)[..k]) == LabelDepth(t[..k], name) {
      RolesPrefix(t, k);
      LabelDepthIsNet(t[..k], name);
    }
  }

  // ---------- When the analysis completes ----------

  lemma UnmatchedMeaning(t: ExecutionTrace)
    ensures NeverOverclosed(Roles(t)) <==> NothingUnmatched(t)
  {
    CallsStayOpenMeaning(t);
    forall name: string ensures StaysOpen(Named(name), Roles(t)) <==> LabelStaysOpen(t, name) {
      LabelStaysOpenMeaning(t, name);
    }
    if NothingUnmatched(t) {
      forall c: Key ensures StaysOpen(c, Roles(t)) {
        match c
        case Calls =>
        case Named(name) => assert LabelStaysOpen(t, name);
      }
    }
  }

  /** Well bracketed means that calls, returns and span messages match. */
  lemma BracketsMeaning(t: ExecutionTrace)
    ensures WellBracketed(t) <==> Analysable(t)
  {
    UnmatchedMeaning(t);
    CallDepthIsNet(t);
  }

  /** The analysis completes exactly if calls, returns and span messages match and the gas fits. */
  lemma CompletionMeaning(t: ExecutionTrace)
    ensures WellBracketed(t) <==> Analysable(t)
    ensures TotalGas(t).Fits() <==> GasFits(t)
  {
    BracketsMeaning(t);
    TotalGasMeaning(t);
  }

  // ---------- The spans ----------

  lemma OpensMeaning(e: ExecutionEvent)
    ensures RoleOf(e).Open? <==> OpensSpan(e)
  {
    if RoleOf(e).Open? && RoleOf(e).key.Named? {
      RoleMeaning(e, RoleOf(e).key.name);
    }
    if name :| StartsSpan(e, name) {
      RoleMeaning(e, name);
    }
  }

  lemma {:induction false} OpenersAreCounted(t: ExecutionTrace)
    ensures |Openers(Roles(t))| == SpansOpened(t)
  {
    if t != [] {
      OpenersAreCounted(ButLast(t));
      Unsnoc(t);
      RolesSnoc(ButLast(t), Last(t));
      SnocOpeners(Roles(ButLast(t)), RoleOf(Last(t)));
      OpensMeaning(Last(t));
    }
  }

  /** The analysis has Root and one span per call and per start message. */
  lemma SpanCount(t: ExecutionTrace)
    ensures |SpansOf(FullScript(t))| == 1 + SpansOpened(t)
  {
    OpenersAreCounted(t);
    RootedOpeners(Roles(t));
    SnocOpeners([ROOT_OPEN] + Roles(t), ROOT_CLOSE);
  }

  /** The span that event `p` opens. */
  ghost function SpanOpenedBy(t: ExecutionTrace, p: nat): SpanValue
    requires p < |t| && OpensSpan(t[p])
  {
    OpensMeaning(t[p]);
    SpanAtEvent(t, p);
    SpansOf(FullScript(t))[SpanIndex(t, p)]
  }

  /** Spans are listed in the order of the events that open them, after Root. */
  lemma SpanPlace(t: ExecutionTrace, p: nat)
    requires p < |t| && OpensSpan(t[p])
    ensures 1 + SpansOpened(t[..p]) < |SpansOf(FullScript(t))|
    ensures SpansOf(FullScript(t))[1 + SpansOpened(t[..p])] == SpanOpenedBy(t, p)
  {
    OpensMeaning(t[p]);
    SpanAtEvent(t, p);
    OpenersAreCounted(t[..p]);
  }

  /** Every span after Root is opened by an event. */
  lemma {:induction false} EverySpanHasAnEvent(t: ExecutionTrace, i: nat) returns (p: nat)
    requires 0 < i <= SpansOpened(t)
    ensures p < |t| && OpensSpan(t[p]) && i == 1 + SpansOpened(t[..p])
  {
    var v := ButLast(t);
    if i <= SpansOpened(v) {
      p := EverySpanHasAnEvent(v, i);
      assert t[..p] == v[..p];
    } else {
      p := |v|;
    }
  }

  lemma ReturnMatches(t: ExecutionTrace, p: nat, q: nat)
    requires p < q < |t| && t[p].Call?
    ensures ReturnsAt(t, p, q) <==> Matches(t, p, q)
  {
    CallDepthIsNet(t[p + 1..q]);
    CallsStayOpenMeaning(t[p + 1..q]);
    RoleMeaning(t[q], "");
  }

  /**
   The span of a call: its id tells which call it is, it owns the charges between the call and its return
   that are made outside further calls, and its total is all charges in between.
   */
  lemma CallSpanHolds(t: ExecutionTrace, p: nat, q: nat)
    requires ReturnsAt(t, p, q)
    ensures Holds(SpanOpenedBy(t, p).own, DirectCharges(t[p + 1..q]))
    ensures Holds(SpanOpenedBy(t, p).total, t[p + 1..q])
  {
    ReturnMatches(t, p, q);
    CallSpanMeasures(t, p, q);
    DirectRoles(t[p + 1..q]);
    TallyHolds(DirectCharges(t[p + 1..q]));
    TallyHolds(t[p + 1..q]);
  }

  /** The id of the span of a call tells its position among the spans, its caller, callee and method. */
  lemma CallSpanId(t: ExecutionTrace, p: nat)
    requires p < |t| && t[p].Call?
    ensures ReadId(SpanOpenedBy(t, p).id)
         == Some(CallName(1 + SpansOpened(t[..p]), t[p].from, t[p].to, t[p].methodNum))
  {
    OpensMeaning(t[p]);
    SpanAtEvent(t, p);
    OpenersAreCounted(t[..p]);
    SpanIdReadsBack(SpanIndex(t, p), t[p].from, t[p].to, t[p].methodNum, "");
  }

  /** The id of a named span tells its position among the spans and its label. */
  lemma NamedSpanId(t: ExecutionTrace, p: nat, name: string)
    requires p < |t| && StartsSpan(t[p], name)
    ensures ReadId(SpanOpenedBy(t, p).id) == Some(LabelName(1 + SpansOpened(t[..p]), name))
  {
    OpensMeaning(t[p]);
    SpanAtEvent(t, p);
    OpenersAreCounted(t[..p]);
    RoleMeaning(t[p], name);
    SpanIdReadsBack(SpanIndex(t, p), 0, "", 0, name);
  }

  lemma EndMatches(t: ExecutionTrace, p: nat, q: nat, name: string)
    requires EndsAt(t, p, q, name)
    ensures Matches(t, p, q) && RoleOf(t[p]).key == Named(name)
  {
    LabelDepthIsNet(t[p + 1..q], name);
    LabelStaysOpenMeaning(t[p + 1..q], name);
    RoleMeaning(t[p], name);
    RoleMeaning(t[q], name);
  }

  /** A named span that is ended holds exactly the charges between its two messages. */
  lemma NamedSpanHolds(t: ExecutionTrace, p: nat, q: nat, name: string)
    requires EndsAt(t, p, q, name)
    ensures Holds(SpanOpenedBy(t, p).own, t[p + 1..q]) && Holds(SpanOpenedBy(t, p).total, t[p + 1..q])
  {
    EndMatches(t, p, q, name);
    NamedSpanMeasures(t, p, q);
    TallyHolds(t[p + 1..q]);
  }

  /** A named span that is never ended owns every charge after its message, and has no total. */
  lemma OpenNamedSpanHolds(t: ExecutionTrace, p: nat, name: string)
    requires p < |t| && StartsSpan(t[p], name) && LabelStaysOpen(t[p + 1..], name)
    ensures Holds(SpanOpenedBy(t, p).own, t[p + 1..]) && Holds(SpanOpenedBy(t, p).total, [])
  {
    RoleMeaning(t[p], name);
    LabelStaysOpenMeaning(t[p + 1..], name);
    UnclosedNamedSpan(t, p);
    TallyHolds(t[p + 1..]);
    TallyHolds([]);
  }

  /** Root is the first span, totals all charges and owns those outside all calls. */
  lemma RootHolds(t: ExecutionTrace)
    requires Analysable(t)
    ensures SpansOf(FullScript(t)) != [] && SpansOf(FullScript(t))[0].id == "Root"
    ensures Holds(SpansOf(FullScript(t))[0].own, DirectCharges(t)) && Holds(SpansOf(FullScript(t))[0].total, t)
  {
    BracketsMeaning(t);
    RootTotal(t);
    DirectRoles(t);
    TallyHolds(DirectCharges(t));
    TallyHolds(t);
  }

  /** In a trace that can be analysed every call returns. */
  lemma CallReturns(t: ExecutionTrace, p: nat) returns (q: nat)
    requires Analysable(t) && p < |t| && t[p].Call?
    ensures ReturnsAt(t, p, q)
  {
    BracketsMeaning(t);
    EveryCallReturns(t, p);
    q := MatchExists(t, p);
    ReturnMatches(t, p, q);
  }

  /** A started span is ended by some message, or its label stays open for the rest of the trace. */
  lemma NamedSpanEnds(t: ExecutionTrace, p: nat, name: string) returns (q: nat)
    requires p < |t| && StartsSpan(t[p], name) && !LabelStaysOpen(t[p + 1..], name)
    ensures EndsAt(t, p, q, name)
  {
    RoleMeaning(t[p], name);
    LabelStaysOpenMeaning(t[p + 1..], name);
    q := MatchExists(t, p);
    RoleMeaning(t[q], name);
    LabelDepthIsNet(t[p + 1..q], name);
    LabelStaysOpenMeaning(t[p + 1..q], name);
  }

  // ---------- Two messages around the same label ----------

  /** A message with a start marker and no marker before it or in its label. */
  lemma WrittenStart(e: ExecutionEvent, before: string, text: string, name: string)
    requires e == Log(before + "SpanStart:" + text) && !Occurs(before, "SpanStart:") && TrimsTo(text, name)
    ensures StartsSpan(e, name)
  {
    assert e.msg == before + "SpanStart:" + text;
  }

  lemma WrittenEnd(e: ExecutionEvent, before: string, text: string, name: string)
    requires e == Log(before + "SpanEnd:" + text) && !Occurs(before, "SpanEnd:") && !Occurs(before, "SpanStart:")
    requires !Occurs(text, "SpanStart:") && TrimsTo(text, name)
    ensures EndsSpan(e, name)
  {
    assert e.msg == before + "SpanEnd:" + text;
    StartAroundEnd(before, text);
  }

  /**
   Two log messages around the same label, with any prefixes free of markers and any white space around
   the label, and no message about that label in between: the span is named after the label and holds, as
   its own gas and as its total, exactly the charges between the messages, whatever calls and other spans
   cross that stretch.
   */
  lemma MessagesMeasure(t: ExecutionTrace, p: nat, q: nat, before: string, after: string,
                        started: string, ended: string, name: string)
    requires p < q < |t| && t[p] == Log(before + "SpanStart:" + started) && t[q] == Log(after + "SpanEnd:" + ended)
    requires !Occurs(before, "SpanStart:") && !Occurs(after, "SpanStart:") && !Occurs(after, "SpanEnd:")
    requires !Occurs(ended, "SpanStart:") && TrimsTo(started, name) && TrimsTo(ended, name)
    requires forall i | p < i < q :: !StartsSpan(t[i], name) && !EndsSpan(t[i], name)
    ensures OpensSpan(t[p])
    ensures ReadId(SpanOpenedBy(t, p).id) == Some(LabelName(1 + SpansOpened(t[..p]), name))
    ensures Holds(SpanOpenedBy(t, p).own, t[p + 1..q]) && Holds(SpanOpenedBy(t, p).total, t[p + 1..q])
  {
    WrittenStart(t[p], before, started, name);
    WrittenEnd(t[q], after, ended, name);
    NoMessageAbout(t, p + 1, q, name);
    NamedSpanId(t, p, name);
    NamedSpanHolds(t, p, q, name);
  }

  // ---------- Why an analysis panics ----------

  ghost predicate EverStarted(t: ExecutionTrace, name: string) {
    exists i :: 0 <= i < |t| && StartsSpan(t[i], name)
  }

  lemma EverStartedMeaning(t: ExecutionTrace, name: string)
    ensures EverOpened(Named(name), Roles(t)) <==> EverStarted(t, name)
  {
    if i :| 0 <= i < |t| && StartsSpan(t[i], name) {
      RoleMeaning(t[i], name);
      assert Roles(t)[i] == RoleOf(t[i]);
    }
    if i :| 0 <= i < |Roles(t)| && Roles(t)[i].Open? && Roles(t)[i].key == Named(name) {
      RoleMeaning(t[i], name);
    }
  }

  /** The run stops at the first close of a key that is not open. */
  lemma {:induction false} StopsAt(t: ExecutionTrace, k: nat, c: Key)
    requires k < |t| && NothingUnmatched(t[..k]) && RoleOf(t[k]) == Close(c) && Net(c, Roles(t[..k])) == 0
    ensures Outcome(t) == Failure(
              if c == Calls then UnmatchedReturn
              else if EverOpened(c, Roles(t[..k])) then LabelNotOpen else UnknownLabel)
  {
    var s := Roles(t[..k]);
    UnmatchedMeaning(t[..k]);
    RunDescribes(s);
    assert t[..k + 1] == t[..k] + [t[k]];
    RolesSnoc(t[..k], t[k]);
    RunSnoc(s, Close(c));
    StepVerdict(Run(s).value, s, Close(c));
    if c.Named? {
      KnownLabels(s, c.name);
    }
    FailedPrefix(t, k + 1);
  }

  /** A return when no call is open is the end of the analysis. */
  lemma UnmatchedReturnPanics(t: ExecutionTrace, k: nat)
    requires k < |t| && NothingUnmatched(t[..k]) && Returns(t[k]) && CallDepth(t[..k]) == 0
    ensures Outcome(t) == Failure(UnmatchedReturn)
  {
    CallDepthIsNet(t[..k]);
    StopsAt(t, k, Calls);
  }

  /** An end message for a label that is not open is the end of the analysis; it matters whether it ever was. */
  lemma UnmatchedEndPanics(t: ExecutionTrace, k: nat, name: string)
    requires k < |t| && NothingUnmatched(t[..k]) && EndsSpan(t[k], name) && LabelDepth(t[..k], name) == 0
    ensures Outcome(t) == Failure(if EverStarted(t[..k], name) then LabelNotOpen else UnknownLabel)
  {
    LabelDepthIsNet(t[..k], name);
    RoleMeaning(t[k], name);
    EverStartedMeaning(t[..k], name);
    StopsAt(t, k, Named(name));
  }

  /** An end message for a label that no earlier message starts. */
  lemma UnknownLabelPanics(t: ExecutionTrace, k: nat, before: string, text: string, name: string)
    requires k < |t| && t[k] == Log(before + "SpanEnd:" + text) && TrimsTo(text, name)
    requires !Occurs(before, "SpanEnd:") && !Occurs(before, "SpanStart:") && !Occurs(text, "SpanStart:")
    requires NothingUnmatched(t[..k]) && !EverStarted(t[..k], name)
    ensures Outcome(t) == Failure(UnknownLabel)
  {
    WrittenEnd(t[k], before, text, name);
    NeverStartedIsLevel(t[..k], name);
    UnmatchedEndPanics(t, k, name);
  }

  lemma {:induction false} NeverStartedIsLevel(t: ExecutionTrace, name: string)
    requires LabelStaysOpen(t, name) && !EverStarted(t, name)
    ensures LabelDepth(t, name) == 0
  {
    NeverAbove(t, name);
    assert t[..|t|] == t;
  }

  lemma {:induction false} NeverAbove(t: ExecutionTrace, name: string)
    requires !EverStarted(t, name)
    ensures LabelDepth(t, name) <= 0
  {
    if t != [] {
      assert forall i | 0 <= i < |t| - 1 :: ButLast(t)[i] == t[i];
      assert !StartsSpan(t[|t| - 1], name);
      NeverAbove(ButLast(t), name);
    }
  }

  /** If nothing is unmatched, the only panic is the final assertion, because some call does not return. */
  lemma UnclosedCallPanics(t: ExecutionTrace)
    requires NothingUnmatched(t) && CallDepth(t) != 0
    ensures Outcome(t) == Failure(UnclosedCall)
  {
    UnmatchedMeaning(t);
    BracketsMeaning(t);
    AnalysisMeasures(t);
    WhyItPanics(t);
  }

  /** The first unmatched event of a trace. With the lemmas above it tells the panic of every failing analysis. */
  lemma {:induction false} FirstUnmatched(t: ExecutionTrace) returns (k: nat)
    requires !NothingUnmatched(t)
    ensures k < |t| && NothingUnmatched(t[..k])
    ensures (Returns(t[k]) && CallDepth(t[..k]) == 0)
         || exists name :: EndsSpan(t[k], name) && LabelDepth(t[..k], name) == 0
  {
    UnmatchedMeaning(t);
    RunDescribes(Roles(t));
    k := FirstFailure(Roles(t));
    RolesPrefix(t, k);
    RunDescribes(Roles(t[..k]));
    UnmatchedMeaning(t[..k]);
    assert Roles(t)[k] == RoleOf(t[k]);
    CallDepthIsNet(t[..k]);
    if RoleOf(t[k]).key.Named? {
      var name := RoleOf(t[k]).key.name;
      LabelDepthIsNet(t[..k], name);
      RoleMeaning(t[k], name);
    }
  }

  // ---------- The whole analysis ----------

  /** What the spans of an analysis say about a call and its return. */
  ghost predicate CallReported(t: ExecutionTrace, p: nat, q: nat, spans: seq<SpanValue>)
    requires ReturnsAt(t, p, q)
  {
    var i := 1 + SpansOpened(t[..p]);
    && i < |spans|
    && ReadId(spans[i].id) == Some(CallName(i, t[p].from, t[p].to, t[p].methodNum))
    && Holds(spans[i].own, DirectCharges(t[p + 1..q])) && Holds(spans[i].total, t[p + 1..q])
  }

  /** What they say about a start message, whose label stays open for the stretch `w`. */
  ghost predicate LabelReported(t: ExecutionTrace, p: nat, name: string, w: ExecutionTrace, ended: bool,
                                spans: seq<SpanValue>)
    requires p < |t|
  {
    var i := 1 + SpansOpened(t[..p]);
    && i < |spans|
    && ReadId(spans[i].id) == Some(LabelName(i, name))
    && Holds(spans[i].own, w) && Holds(spans[i].total, if ended then w else [])
  }

  /** Root, every call and every start message has its span, in the order of the events. */
  ghost predicate Reported(t: ExecutionTrace, spans: seq<SpanValue>) {
    && |spans| == 1 + SpansOpened(t)
    && spans[0].id == "Root" && Holds(spans[0].own, DirectCharges(t)) && Holds(spans[0].total, t)
    && (forall p: nat, q: nat | ReturnsAt(t, p, q) :: CallReported(t, p, q, spans))
    && (forall p: nat, q: nat, name | EndsAt(t, p, q, name) :: LabelReported(t, p, name, t[p + 1..q], true, spans))
    && (forall p, name | 0 <= p < |t| && StartsSpan(t[p], name) && LabelStaysOpen(t[p + 1..], name) ::
          LabelReported(t, p, name, t[p + 1..], false, spans))
  }

  /** The measured spans are those that the events call for. */
  lemma SpansAreReported(t: ExecutionTrace)
    requires Analysable(t)
    ensures Reported(t, SpansOf(FullScript(t)))
  {
    var spans := SpansOf(FullScript(t));
    SpanCount(t);
    RootHolds(t);
    forall p: nat, q: nat | ReturnsAt(t, p, q) ensures CallReported(t, p, q, spans) {
      SpanPlace(t, p);
      CallSpanId(t, p);
      CallSpanHolds(t, p, q);
    }
    forall p: nat, q: nat, name | EndsAt(t, p, q, name)
      ensures LabelReported(t, p, name, t[p + 1..q], true, spans)
    {
      SpanPlace(t, p);
      NamedSpanId(t, p, name);
      NamedSpanHolds(t, p, q, name);
    }
    forall p, name | 0 <= p < |t| && StartsSpan(t[p], name) && LabelStaysOpen(t[p + 1..], name)
      ensures LabelReported(t, p, name, t[p + 1..], false, spans)
    {
      SpanPlace(t, p);
      NamedSpanId(t, p, name);
      OpenNamedSpanHolds(t, p, name);
    }
  }
}
