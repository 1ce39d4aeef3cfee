/** The trace analysis as the program runs it: mutable spans, a call stack and named span stacks. */
module Analysis {
  import opened Wrappers
  import opened Sequences
  import opened GasModel
  import opened Trace
  import opened Markers
  import opened Text
  import opened Script
  import opened Measures
  import opened Machine
  import opened Runs
  import opened Events
  import opened EventSpans

  /** Addition in u64; None is the overflow on which the program stops. */
  function CheckedPlus(a: GasCharge, b: GasCharge): (r: Option<GasCharge>)
    ensures r.Some? <==> a.Plus(b).Fits()
    ensures r.Some? ==> r.value == a.Plus(b)
  {
    if a.computeMilli + b.computeMilli > U64_MAX then None
    else if a.otherMilli + b.otherMilli > U64_MAX then None
    else Some(Gas(a.computeMilli + b.computeMilli, a.otherMilli + b.otherMilli))
  }

  class Span {
    const id: string
    var selfGas: map<string, GasCharge>
    var selfGasSum: GasCharge
    var totalGas: map<string, GasCharge>
    var totalGasSum: GasCharge

    ghost function Value(): SpanValue
      reads this
    {
      SpanValue(id, Ledger(selfGasSum, selfGas), Ledger(totalGasSum, totalGas))
    }

    constructor (id: string)
      ensures Value() == SpanValue(id, EMPTY_LEDGER, EMPTY_LEDGER)
    {
      this.id := id;
      selfGas, selfGasSum := map[], NO_GAS;
      totalGas, totalGasSum := map[], NO_GAS;
    }

    method AddSelfGas(name: string, c: GasCharge) returns (ok: bool)
      modifies this`selfGas, this`selfGasSum
      ensures ok <==> Credited(old(Value()), name, c).own.Fits()
      ensures ok ==> Value() == Credited(old(Value()), name, c)
    {
      ghost var credited := Credited(Value(), name, c).own;
      assert credited.byName[name] == Value().own.At(name).Plus(c);
      var sum := CheckedPlus(selfGasSum, c);
      if sum.None? {
        return false;
      }
      selfGasSum := sum.value;
      var entry := CheckedPlus(if name in selfGas then selfGas[name] else NO_GAS, c);
      if entry.None? {
        return false;
      }
      selfGas := selfGas[name := entry.value];
      ok := true;
    }

    method AddSelfToTotalGas() returns (ok: bool)
      modifies this`totalGas, this`totalGasSum
      ensures ok <==> Settled(old(Value())).total.Fits()
      ensures ok ==> Value() == Settled(old(Value()))
    {
      ok := AddToTotal(selfGasSum, selfGas);
    }

    method AddOtherToTotalGas(other: Span) returns (ok: bool)
      requires other != this
      modifies this`totalGas, this`totalGasSum
      ensures ok <==> Absorbed(old(Value()), other.Value()).total.Fits()
      ensures ok ==> Value() == Absorbed(old(Value()), other.Value())
    {
      ok := AddToTotal(other.totalGasSum, other.totalGas);
    }

    /** Adds to one entry of the total, which starts at nothing. */
    method AddToEntry(n: string, c: GasCharge) returns (ok: bool)
      modifies this`totalGas
      ensures ok <==> Ledger(NO_GAS, old(totalGas)).Credit(n, c).byName[n].Fits()
      ensures ok ==> totalGas == Ledger(NO_GAS, old(totalGas)).Credit(n, c).byName
    {
      var entry := CheckedPlus(if n in totalGas then totalGas[n] else NO_GAS, c);
      if entry.None? {
        return false;
      }
      totalGas := totalGas[n := entry.value];
      ok := true;
    }

    /** Adds a sum and its breakdown to the totals, visiting the breakdown in an arbitrary order. */
    method AddToTotal(sum: GasCharge, charges: map<string, GasCharge>) returns (ok: bool)
      modifies this`totalGas, this`totalGasSum
      ensures ok <==> old(Value()).total.Merge(Ledger(sum, charges)).Fits()
      ensures ok ==> Value() == old(Value()).(total := old(Value()).total.Merge(Ledger(sum, charges)))
    {
      ghost var before := totalGas;
      ghost var merged := Value().total.Merge(Ledger(sum, charges));
      var newSum := CheckedPlus(totalGasSum, sum);
      if newSum.None? {
        return false;
      }
      totalGasSum := newSum.value;
      var pending := charges.Keys;
      while pending != {}
        invariant pending <= charges.Keys && totalGasSum == merged.sum
        invariant totalGas.Keys == before.Keys + (charges.Keys - pending)
        invariant forall n | n in totalGas && n !in pending :: totalGas[n] == merged.byName[n]
        invariant forall n | n in pending && n in totalGas :: n in before && totalGas[n] == before[n]
      {
        var n :| n in pending;
        ok := AddToEntry(n, charges[n]);
        if !ok {
          assert !merged.byName[n].Fits();
          return;
        }
        pending := pending - {n};
      }
      assert totalGas == merged.byName;
      ok := true;
    }
  }

  // ---------- Spans on the heap ----------

  ghost function Values(spans: seq<Span>): seq<SpanValue>
    reads spans
  {
    seq(|spans|, i requires 0 <= i < |spans| reads spans => spans[i].Value())
  }

  ghost predicate Distinct(spans: seq<Span>) {
    forall i, j | 0 <= i < j < |spans| :: spans[i] != spans[j]
  }

  /** Every span of `done` has received the charge, and no other span has changed. */
  ghost predicate ChargedSoFar(spans: seq<Span>, before: seq<SpanValue>, done: set<nat>, name: string, c: GasCharge)
    reads spans
  {
    && |spans| == |before|
    && forall i | 0 <= i < |spans| ::
         spans[i].Value() == if i in done then Credited(before[i], name, c) else before[i]
  }

  ghost function Elements(list: seq<nat>): set<nat> {
    set i | i in list
  }

  method ChargeOne(spans: seq<Span>, idx: nat, name: string, c: GasCharge,
                   ghost before: seq<SpanValue>, ghost done: set<nat>) returns (ok: bool)
    requires Distinct(spans) && ChargedSoFar(spans, before, done, name, c)
    requires idx < |spans| && idx !in done
    modifies spans[idx]
    ensures ok ==> ChargedSoFar(spans, before, done + {idx}, name, c)
    ensures !ok ==> !Credited(before[idx], name, c).own.Fits()
  {
    ok := spans[idx].AddSelfGas(name, c);
  }

  /** Charges every span of one label's list, in order. */
  method ChargeList(spans: seq<Span>, list: seq<nat>, name: string, c: GasCharge,
                    ghost before: seq<SpanValue>, ghost done: set<nat>) returns (ok: bool)
    requires Distinct(spans) && ChargedSoFar(spans, before, done, name, c)
    requires forall h | 0 <= h < |list| :: list[h] < |spans| && list[h] !in done
    requires forall h, k | 0 <= h < k < |list| :: list[h] < list[k]
    modifies spans
    ensures ok ==> ChargedSoFar(spans, before, done + Elements(list), name, c)
    ensures !ok ==> exists i | i in list && i < |before| :: !Credited(before[i], name, c).own.Fits()
  {
    for k := 0 to |list|
      invariant ChargedSoFar(spans, before, done + Elements(list[..k]), name, c)
    {
      assert list[k] !in list[..k];
      ok := ChargeOne(spans, list[k], name, c, before, done + Elements(list[..k]));
      if !ok {
        assert list[k] in list;
        return;
      }
      OneMoreElement(list, k, done);
    }
    assert list[..|list|] == list;
    ok := true;
  }

  lemma OneMoreElement(list: seq<nat>, k: nat, done: set<nat>)
    requires k < |list|
    ensures done + Elements(list[..k + 1]) == done + Elements(list[..k]) + {list[k]}
  {
    assert list[..k + 1] == list[..k] + [list[k]];
  }

  /** The spans charged once the labels of `labels` are still to be visited. */
  ghost predicate IsCharged(st: State, labels: set<string>, i: nat)
    requires st.InRange()
  {
    i == Last(st.callStack) || exists l | l in st.named && l !in labels :: i in st.named[l]
  }

  /** A gas charge: to the innermost open call and to every open named span, labels in an arbitrary order. */
  method ChargeSpan(spans: seq<Span>, callStack: seq<nat>, named: map<string, seq<nat>>,
                    name: string, c: GasCharge) returns (ok: bool)
    requires Distinct(spans) && Disciplined(State(Values(spans), callStack, named))
    modifies spans
    ensures ok ==> Values(spans) == old(ChargeSpans(State(Values(spans), callStack, named), name, c))
    ensures !ok ==> !AllFit(old(ChargeSpans(State(Values(spans), callStack, named), name, c)))
  {
    ghost var st := State(Values(spans), callStack, named);
    var top := Last(callStack);
    ok := spans[top].AddSelfGas(name, c);
    if !ok {
      UnfitCharge(st, name, c, top);
      return;
    }
    ghost var done: set<nat> := {top};
    var labels := named.Keys;
    while labels != {}
      invariant labels <= named.Keys
      invariant forall i | 0 <= i < |spans| :: i in done <==> IsCharged(st, labels, i)
      invariant ChargedSoFar(spans, st.spans, done, name, c)
    {
      var l :| l in labels;
      ListIsFresh(st, labels, l);
      ok := ChargeList(spans, named[l], name, c, st.spans, done);
      if !ok {
        ghost var i :| i in named[l] && i < |st.spans| && !Credited(st.spans[i], name, c).own.Fits();
        UnfitCharge(st, name, c, i);
        return;
      }
      ListIsCharged(st, labels, l);
      labels, done := labels - {l}, done + Elements(named[l]);
    }
    assert Values(spans) == ChargeSpans(st, name, c);
    ok := true;
  }

  lemma UnfitCharge(st: State, name: string, c: GasCharge, i: nat)
    requires st.InRange() && i < |st.spans| && st.Receives(i) && !Credited(st.spans[i], name, c).own.Fits()
    ensures !AllFit(ChargeSpans(st, name, c))
  {
    assert ChargeSpans(st, name, c)[i] == Credited(st.spans[i], name, c);
  }

  /** No span in a label's list has been charged through the call stack or another label. */
  lemma ListIsFresh(st: State, labels: set<string>, l: string)
    requires Disciplined(st) && l in labels && l in st.named
    ensures forall i | i in st.named[l] :: i < |st.spans| && !IsCharged(st, labels, i)
    ensures forall h, k | 0 <= h < k < |st.named[l]| :: st.named[l][h] < st.named[l][k]
  {
    assert st.Stack(Named(l)) == st.named[l];
    assert Last(st.callStack) in st.Stack(Calls);
    forall i | i in st.named[l] ensures !IsCharged(st, labels, i) {
      assert i in st.Stack(Named(l));
      assert forall m | m in st.named && i in st.named[m] :: i in st.Stack(Named(m));
    }
  }

  lemma ListIsCharged(st: State, labels: set<string>, l: string)
    requires st.InRange() && l in labels && l in st.named
    ensures forall i: nat :: IsCharged(st, labels - {l}, i) <==> IsCharged(st, labels, i) || i in st.named[l]
  {
  }

  /** A return: settles the call on top of the stack and adds its total to its caller's. */
  method ReturnFromCall(spans: seq<Span>, callStack: seq<nat>) returns (r: Result<seq<nat>, Panic>)
    requires Distinct(spans) && callStack != []
    requires forall h | 0 <= h < |callStack| :: callStack[h] < |spans|
    requires forall h, k | 0 <= h < k < |callStack| :: callStack[h] < callStack[k]
    modifies spans
    ensures r.Success? ==> |callStack| >= 2 && r.value == ButLast(callStack)
    ensures r.Success? ==> forall named | State(old(Values(spans)), callStack, named).InRange() ::
              Values(spans) == ReturnCall(State(old(Values(spans)), callStack, named)).spans
    ensures r == Failure(UnmatchedReturn) || r == Failure(Overflow) || r.Success?
    ensures r == Failure(UnmatchedReturn) ==> |callStack| == 1
    ensures r == Failure(Overflow) ==> !ReturnFits(old(Values(spans)), callStack)
  {
    var closedIdx, rest := Last(callStack), ButLast(callStack);
    var ok := spans[closedIdx].AddSelfToTotalGas();
    if !ok {
      return Failure(Overflow);
    }
    if rest == [] {
      return Failure(UnmatchedReturn);
    }
    var topIdx := Last(rest);
    ok := spans[topIdx].AddOtherToTotalGas(spans[closedIdx]);
    if !ok {
      return Failure(Overflow);
    }
    r := Success(rest);
  }

  ghost predicate ReturnFits(spans: seq<SpanValue>, callStack: seq<nat>)
    requires callStack != [] && forall h | 0 <= h < |callStack| :: callStack[h] < |spans|
  {
    var closed := Settled(spans[Last(callStack)]);
    && closed.total.Fits()
    && (|callStack| >= 2 ==> Absorbed(spans[Last(ButLast(callStack))], closed).total.Fits())
  }

  lemma ReturnFitsWhenNextFits(st: State)
    requires Disciplined(st) && |st.callStack| >= 2 && AllFit(ReturnCall(st).spans)
    ensures ReturnFits(st.spans, st.callStack)
  {
    var closed, parent := Last(st.callStack), Last(ButLast(st.callStack));
    assert st.Stack(Calls) == st.callStack;
    assert ReturnCall(st).spans[closed] == Settled(st.spans[closed]);
    assert ReturnCall(st).spans[parent] == Absorbed(st.spans[parent], Settled(st.spans[closed]));
  }

  // ---------- The pass over the trace ----------

  /** The local variables of the pass. */
  datatype Tables = Tables(spans: seq<Span>, callStack: seq<nat>, named: map<string, seq<nat>>) {
    ghost function Value(): State
      reads spans
    {
      State(Values(spans), callStack, named)
    }
  }

  /** A new span at the end of the span vector, open under its key. */
  method OpenSpan(tables: Tables, key: Key, tag: string) returns (next: Tables)
    requires tables.Value().InRange() && Distinct(tables.spans)
    ensures tables.spans <= next.spans && Distinct(next.spans)
    ensures forall i | |tables.spans| <= i < |next.spans| :: fresh(next.spans[i])
    ensures Success(next.Value()) == Step(old(tables.Value()), Open(key, tag))
  {
    var Tables(spans, callStack, named) := tables;
    var span := new Span(SpanId(|spans|, tag));
    match key {
      case Calls =>
        callStack := callStack + [|spans|];
      case Named(name) =>
        named := named[name := (if name in named then named[name] else []) + [|spans|]];
    }
    spans := spans + [span];
    next := Tables(spans, callStack, named);
    assert next.Value().spans == tables.Value().spans + [NewSpan(|tables.spans|, tag)];
  }

  /** The end of a named span: the one opened last under its label. */
  method CloseNamedSpan(tables: Tables, name: string) returns (r: Result<Tables, Panic>)
    requires tables.Value().InRange() && Distinct(tables.spans)
    modifies tables.spans
    ensures r.Success? ==> r.value.spans == tables.spans
    ensures r.Success? ==> Success(r.value.Value()) == Step(old(tables.Value()), Close(Named(name)))
    ensures r == Failure(Overflow) ==>
              var next := Step(old(tables.Value()), Close(Named(name))); next.Success? && !AllFit(next.value.spans)
    ensures r.Failure? && r.error != Overflow ==> Failure(r.error) == Step(old(tables.Value()), Close(Named(name)))
  {
    var Tables(spans, callStack, named) := tables;
    ghost var st := tables.Value();
    if name !in named {
      return Failure(UnknownLabel);
    }
    if named[name] == [] {
      return Failure(LabelNotOpen);
    }
    var closedIdx := Last(named[name]);
    named := named[name := ButLast(named[name])];
    var ok := spans[closedIdx].AddSelfToTotalGas();
    if !ok {
      assert CloseNamed(st, name).spans[closedIdx] == Settled(st.spans[closedIdx]);
      return Failure(Overflow);
    }
    assert Values(spans) == CloseNamed(st, name).spans;
    r := Success(Tables(spans, callStack, named));
  }

  /** A log message: it may open or close a named span. */
  method ProcessLog(tables: Tables, msg: string) returns (r: Result<Tables, Panic>)
    requires Disciplined(tables.Value()) && Distinct(tables.spans)
    modifies tables.spans
    ensures r.Success? ==> tables.spans <= r.value.spans && Distinct(r.value.spans)
    ensures r.Success? ==> forall i | |tables.spans| <= i < |r.value.spans| :: fresh(r.value.spans[i])
    ensures r.Success? ==> Success(r.value.Value()) == Step(old(tables.Value()), RoleOf(Log(msg)))
    ensures r == Failure(Overflow) ==> !StepFits(old(tables.Value()), RoleOf(Log(msg)))
    ensures r.Failure? && r.error != Overflow ==> Failure(r.error) == Step(old(tables.Value()), RoleOf(Log(msg)))
    ensures r.Success? ==> forall name | StartsSpan(Log(msg), name) ::
              Success(r.value.Value()) == Step(old(tables.Value()), Open(Named(name), "Span(" + name + ")"))
    ensures r.Success? ==> forall name | EndsSpan(Log(msg), name) ::
              Success(r.value.Value()) == Step(old(tables.Value()), Close(Named(name)))
  {
    forall name: string
      ensures StartsSpan(Log(msg), name) ==> RoleOf(Log(msg)) == Open(Named(name), "Span(" + name + ")")
      ensures EndsSpan(Log(msg), name) ==> RoleOf(Log(msg)) == Close(Named(name))
    {
      RoleMeaning(Log(msg), name);
    }
    var start := Find(msg, START);
    if start.Some? {
      var name := Trim(msg[start.value + |START|..]);
      var next := OpenSpan(tables, Named(name), "Span(" + name + ")");
      return Success(next);
    }
    var end := Find(msg, END);
    if end.Some? {
      var name := Trim(msg[end.value + |END|..]);
      r := CloseNamedSpan(tables, name);
    } else {
      r := Success(tables);
    }
  }

  /** One event of the pass. */
  method Process(tables: Tables, event: ExecutionEvent) returns (r: Result<Tables, Panic>)
    requires Disciplined(tables.Value()) && Distinct(tables.spans)
    modifies tables.spans
    ensures r.Success? ==> tables.spans <= r.value.spans && Distinct(r.value.spans)
    ensures r.Success? ==> forall i | |tables.spans| <= i < |r.value.spans| :: fresh(r.value.spans[i])
    ensures r.Success? ==> Success(r.value.Value()) == Step(old(tables.Value()), RoleOf(event))
    ensures r == Failure(Overflow) ==> !StepFits(old(tables.Value()), RoleOf(event))
    ensures r.Failure? && r.error != Overflow ==> Failure(r.error) == Step(old(tables.Value()), RoleOf(event))
  {
    ghost var st := tables.Value();
    assert st.Stack(Calls) == tables.callStack;
    match event {
      case GasCharged(name, computeMilli, otherMilli) =>
        var charge: GasCharge := Gas(computeMilli, otherMilli);
        var ok := ChargeSpan(tables.spans, tables.callStack, tables.named, name, charge);
        r := if ok then Success(tables) else Failure(Overflow);
      case Call(from, to, methodNum, _, _, _, _) =>
        var tag := "Call(" + Decimal(from) + "->" + to + "::" + Decimal(methodNum) + ")";
        var next := OpenSpan(tables, Calls, tag);
        r := Success(next);
      case CallReturn(_, _) =>
        r := ProcessReturn(tables);
      case CallError(_, _) =>
        r := ProcessReturn(tables);
      case Log(msg) =>
        r := ProcessLog(tables, msg);
      case InvokeActor(_) =>
        r := Success(tables);
    }
  }

  /** A return, with or without an error. */
  method ProcessReturn(tables: Tables) returns (r: Result<Tables, Panic>)
    requires Disciplined(tables.Value()) && Distinct(tables.spans)
    modifies tables.spans
    ensures r.Success? ==> r.value.spans == tables.spans
    ensures r.Success? ==> Success(r.value.Value()) == Step(old(tables.Value()), Close(Calls))
    ensures r == Failure(Overflow) ==> !StepFits(old(tables.Value()), Close(Calls))
    ensures r.Failure? && r.error != Overflow ==> Failure(r.error) == Step(old(tables.Value()), Close(Calls))
  {
    ghost var st := tables.Value();
    assert st.Stack(Calls) == tables.callStack;
    var rest := ReturnFromCall(tables.spans, tables.callStack);
    if rest == Failure(Overflow) && |st.callStack| >= 2 && AllFit(ReturnCall(st).spans) {
      ReturnFitsWhenNextFits(st);
    }
    r := if rest.Success? then Success(tables.(callStack := rest.value)) else Failure(rest.error);
  }

  /** No amount written while handling the role exceeds u64. */
  ghost predicate StepFits(st: State, role: Role)
    requires st.InRange()
  {
    && (Step(st, role).Success? ==> AllFit(Step(st, role).value.spans))
    && (role == Close(Calls) ==> Settled(st.spans[Last(st.callStack)]).total.Fits())
  }

  /**
   Builds the analysis of a trace: its spans in the order they were opened, Root first. The contract is about
   the events themselves; the panics other than overflow are told by the lemmas on `Outcome` in EventSpans.
   */
  method Build(trace: ExecutionTrace) returns (r: Result<seq<Span>, Panic>)
    ensures r.Success? <==> Analysable(trace) && GasFits(trace)
    ensures r.Success? ==> Reported(trace, Values(r.value)) && Values(r.value) == SpansOf(FullScript(trace))
    ensures r == Failure(Overflow) ==> !GasFits(trace)
    ensures Analysable(trace) && !GasFits(trace) ==> r == Failure(Overflow)
    ensures r.Failure? && r.error != Overflow ==> Outcome(trace) == Failure(r.error)
  {
    CompletionMeaning(trace);
    var root := new Span("Root");
    var tables := Tables([root], [0], map[]);
    assert trace[..0] == [] && tables.Value() == INITIAL;
    for k := 0 to |trace|
      invariant Distinct(tables.spans) && forall i | 0 <= i < |tables.spans| :: fresh(tables.spans[i])
      invariant Run(Roles(trace[..k])) == Success(tables.Value())
    {
      NextEvent(trace, k);
      var next := Process(tables, trace[k]);
      if next.Failure? {
        return Failure(next.error);
      }
      tables := next.value;
    }
    assert trace[..|trace|] == trace;
    r := CloseRoot(trace, tables);
    if r.Success? {
      SpansAreReported(trace);
    }
  }

  /** The end of the pass: Root is the only call left, and is settled. */
  method CloseRoot(trace: ExecutionTrace, tables: Tables) returns (r: Result<seq<Span>, Panic>)
    requires Distinct(tables.spans) && Run(Roles(trace)) == Success(tables.Value())
    modifies tables.spans
    ensures r.Success? <==> WellBracketed(trace) && TotalGas(trace).Fits()
    ensures r.Success? ==> Values(r.value) == SpansOf(FullScript(trace))
    ensures r == Failure(Overflow) ==> !TotalGas(trace).Fits()
    ensures WellBracketed(trace) && !TotalGas(trace).Fits() ==> r == Failure(Overflow)
    ensures r.Failure? && r.error != Overflow ==> Outcome(trace) == Failure(r.error)
  {
    ghost var st := tables.Value();
    AnalysisMeasures(trace);
    assert trace[..|trace|] == trace;
    ClosingFits(trace, |trace|);
    var topIdx, rest := Last(tables.callStack), ButLast(tables.callStack);
    if rest != [] {
      return Failure(UnclosedCall);
    }
    var ok := tables.spans[topIdx].AddSelfToTotalGas();
    if !ok {
      return Failure(Overflow);
    }
    assert Values(tables.spans) == Finish(st).value;
    RootTotal(trace);
    IndexDiscipline(Roles(trace));
    assert tables.spans[0].Value().total == Tally(Roles(trace));
    r := Success(tables.spans);
  }

  /** The state before and after the k-th event, and what it says about the whole trace. */
  lemma NextEvent(trace: ExecutionTrace, k: nat)
    requires k < |trace| && Run(Roles(trace[..k])).Success?
    ensures Disciplined(Run(Roles(trace[..k])).value)
    ensures var next := Step(Run(Roles(trace[..k])).value, RoleOf(trace[k]));
            && Run(Roles(trace[..k + 1])) == next
            && (TotalGas(trace).Fits() ==> StepFits(Run(Roles(trace[..k])).value, RoleOf(trace[k])))
            && (next.Failure? ==> Outcome(trace) == Failure(next.error) && !WellBracketed(trace))
  {
    IndexDiscipline(Roles(trace[..k]));
    assert trace[..k + 1] == trace[..k] + [trace[k]];
    RolesSnoc(trace[..k], trace[k]);
    RunSnoc(Roles(trace[..k]), RoleOf(trace[k]));
    ClosingFits(trace, k);
    if Run(Roles(trace[..k + 1])).Success? {
      ReachableFits(trace, k + 1);
    } else {
      FailedPrefix(trace, k + 1);
      AnalysisMeasures(trace);
    }
  }
}
