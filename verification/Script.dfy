/**
 What a span measures, defined on the trace alone.

 Calls and labelled log messages are read as brackets: each span is opened under a key, and the
 matching close is the first point where that key has been closed more often than opened since.
 */
module Script {
  import opened Sequences
  import opened GasModel
  import opened Trace
  import opened Markers
  import opened Text

  datatype Key = Calls | Named(name: string)

  datatype Role =
    | Charge(name: string, gas: GasCharge)
    | Open(key: Key, tag: string)
    | Close(key: Key)
    | Inert

  function CallTag(from: ActorID, to: Address, methodNum: MethodNum): string {
    "Call(" + Decimal(from) + "->" + to + "::" + Decimal(methodNum) + ")"
  }

  function NamedTag(name: string): string {
    "Span(" + name + ")"
  }

  /** The part an event plays in the analysis. */
  function RoleOf(e: ExecutionEvent): Role {
    match e
    case GasCharged(name, computeMilli, otherMilli) => Charge(name, Gas(computeMilli, otherMilli))
    case Call(from, to, methodNum, _, _, _, _) => Open(Calls, CallTag(from, to, methodNum))
    case CallReturn(_, _) => Close(Calls)
    case CallError(_, _) => Close(Calls)
    case InvokeActor(_) => Inert
    case Log(msg) =>
      match ReadMarker(msg)
      case StartOf(name) => Open(Named(name), NamedTag(name))
      case EndOf(name) => Close(Named(name))
      case NoMarker => Inert
  }

  function Roles(t: ExecutionTrace): seq<Role> {
    seq(|t|, i requires 0 <= i < |t| => RoleOf(t[i]))
  }

  /** Root is treated as a call that surrounds the whole trace. */
  const ROOT_OPEN := Open(Calls, "Root")
  const ROOT_CLOSE := Close(Calls)

  // ---------- Brackets ----------

  function Delta(c: Key, r: Role): int {
    if r.Open? && r.key == c then 1 else if r.Close? && r.key == c then -1 else 0
  }

  /** Opens minus closes of a key. */
  function Net(c: Key, w: seq<Role>): int {
    if w == [] then 0 else Net(c, w[..|w| - 1]) + Delta(c, w[|w| - 1])
  }

  /** On no prefix has the key been closed more often than opened. */
  predicate StaysOpen(c: Key, w: seq<Role>) {
    w == [] || (StaysOpen(c, w[..|w| - 1]) && Net(c, w) >= 0)
  }

  /** The longest prefix of `w` that ends before the close matching an open of `c` just before `w`. */
  function Window(c: Key, w: seq<Role>): seq<Role> {
    if StaysOpen(c, w) then w else Window(c, w[..|w| - 1])
  }

  // ---------- Charges ----------

  /** All charges of `w`, summed by name. */
  function Tally(w: seq<Role>): Ledger {
    if w == [] then EMPTY_LEDGER else
    var before := Tally(w[..|w| - 1]);
    match w[|w| - 1]
    case Charge(name, gas) => before.Credit(name, gas)
    case _ => before
  }

  /** The charges of `w` made outside every call that `w` opens. */
  function Direct(w: seq<Role>): seq<Role> {
    if w == [] then [] else
    var v := w[..|w| - 1];
    Direct(v) + if w[|w| - 1].Charge? && Net(Calls, v) == 0 then [w[|w| - 1]] else []
  }

  /** The charges of `w` made inside some call that `w` opens. */
  function Nested(w: seq<Role>): seq<Role> {
    if w == [] then [] else
    var v := w[..|w| - 1];
    Nested(v) + if w[|w| - 1].Charge? && Net(Calls, v) != 0 then [w[|w| - 1]] else []
  }

  /** The longest prefix of `w` at whose end every call opened in it has returned. */
  function Level(w: seq<Role>): seq<Role> {
    if Net(Calls, w) == 0 then w else if w == [] then [] else Level(w[..|w| - 1])
  }

  // ---------- Spans ----------

  datatype SpanValue = SpanValue(id: string, own: Ledger, total: Ledger)

  /** The gas of a span opened under `c` with `w` the trace from there on. */
  ghost function Measure(c: Key, id: string, w: seq<Role>): SpanValue {
    var seen := Window(c, w);
    var closed := !StaysOpen(c, w);
    match c
    case Named(_) => SpanValue(id, Tally(seen), if closed then Tally(seen) else EMPTY_LEDGER)
    case Calls => SpanValue(id, Tally(Direct(seen)), if closed then Tally(seen) else Tally(Nested(Level(seen))))
  }

  /** Positions at which spans are opened, in order. */
  function Openers(s: seq<Role>): (ps: seq<nat>)
    ensures forall i | 0 <= i < |ps| :: ps[i] < |s| && s[ps[i]].Open?
    ensures forall i, j | 0 <= i < j < |ps| :: ps[i] < ps[j]
  {
    if s == [] then [] else
    var v := s[..|s| - 1];
    Openers(v) + if s[|s| - 1].Open? then [|v|] else []
  }

  function SpanId(i: nat, tag: string): string {
    if i == 0 then tag else Decimal(i) + "-" + tag
  }

  function KeyOf(s: seq<Role>, i: nat): Key
    requires i < |Openers(s)|
  {
    s[Openers(s)[i]].key
  }

  function IdOf(s: seq<Role>, i: nat): string
    requires i < |Openers(s)|
  {
    SpanId(i, s[Openers(s)[i]].tag)
  }

  function After(s: seq<Role>, i: nat): seq<Role>
    requires i < |Openers(s)|
  {
    s[Openers(s)[i] + 1..]
  }

  /** The i-th opened span of a script. */
  ghost function SpanOf(s: seq<Role>, i: nat): SpanValue
    requires i < |Openers(s)|
  {
    Measure(KeyOf(s, i), IdOf(s, i), After(s, i))
  }

  ghost function SpansOf(s: seq<Role>): seq<SpanValue> {
    seq(|Openers(s)|, i requires 0 <= i < |Openers(s)| => SpanOf(s, i))
  }

  /** A trace as a script in which Root surrounds all events. */
  function FullScript(t: ExecutionTrace): seq<Role> {
    [ROOT_OPEN] + Roles(t) + [ROOT_CLOSE]
  }

  /** Every return has its call, every call its return, and every span end its start. */
  ghost predicate WellBracketed(t: ExecutionTrace) {
    && Net(Calls, Roles(t)) == 0
    && forall c: Key :: StaysOpen(c, Roles(t))
  }

  /** All gas charged by a trace. */
  function TotalGas(t: ExecutionTrace): Gas {
    Tally(Roles(t)).sum
  }

  // ---------- Extending a script by one role ----------

  lemma RolesSnoc(t: ExecutionTrace, e: ExecutionEvent)
    ensures Roles(t + [e]) == Roles(t) + [RoleOf(e)]
  {
  }

  lemma SnocNet(c: Key, w: seq<Role>, r: Role)
    ensures Net(c, w + [r]) == Net(c, w) + Delta(c, r)
  {
    Snoc(w, r);
  }

  lemma SnocStaysOpen(c: Key, w: seq<Role>, r: Role)
    ensures StaysOpen(c, w + [r]) <==> StaysOpen(c, w) && Net(c, w + [r]) >= 0
  {
    Snoc(w, r);
  }

  lemma SnocTally(w: seq<Role>, r: Role)
    ensures Tally(w + [r]) == if r.Charge? then Tally(w).Credit(r.name, r.gas) else Tally(w)
  {
    Snoc(w, r);
  }

  lemma SnocDirect(w: seq<Role>, r: Role)
    ensures Direct(w + [r]) == if r.Charge? && Net(Calls, w) == 0 then Direct(w) + [r] else Direct(w)
    ensures Nested(w + [r]) == if r.Charge? && Net(Calls, w) != 0 then Nested(w) + [r] else Nested(w)
  {
    Snoc(w, r);
  }

  lemma SnocLevel(w: seq<Role>, r: Role)
    ensures Level(w + [r]) == if Net(Calls, w + [r]) == 0 then w + [r] else Level(w)
  {
    Snoc(w, r);
  }

  lemma SnocWindow(c: Key, w: seq<Role>, r: Role)
    ensures Window(c, w + [r]) == if StaysOpen(c, w + [r]) then w + [r] else Window(c, w)
  {
    Snoc(w, r);
  }

  lemma SnocOpeners(s: seq<Role>, r: Role)
    ensures Openers(s + [r]) == if r.Open? then Openers(s) + [|s|] else Openers(s)
  {
    Snoc(s, r);
  }

  lemma SnocOpener(s: seq<Role>, r: Role, i: nat)
    requires i < |Openers(s)|
    ensures |Openers(s + [r])| >= |Openers(s)|
    ensures KeyOf(s + [r], i) == KeyOf(s, i)
    ensures IdOf(s + [r], i) == IdOf(s, i)
    ensures After(s + [r], i) == After(s, i) + [r]
  {
    SnocOpeners(s, r);
    assert Openers(s + [r])[i] == Openers(s)[i];
  }

  // ---------- Concatenation ----------

  lemma {:induction false} NetConcat(c: Key, a: seq<Role>, b: seq<Role>)
    ensures Net(c, a + b) == Net(c, a) + Net(c, b)
  {
    if b == [] {
      ConcatNothing(a);
    } else {
      var v, r := b[..|b| - 1], b[|b| - 1];
      NetConcat(c, a, v);
      Unsnoc2(a, b);
      SnocNet(c, a + v, r);
    }
  }

  lemma {:induction false} TallyConcat(a: seq<Role>, b: seq<Role>)
    ensures Tally(a + b) == Tally(a).Merge(Tally(b))
  {
    if b == [] {
      ConcatNothing(a);
      MergeEmpty(Tally(a));
    } else {
      var v, r := b[..|b| - 1], b[|b| - 1];
      TallyConcat(a, v);
      Unsnoc2(a, b);
      SnocTally(a + v, r);
      if r.Charge? {
        CreditRight(Tally(a), Tally(v), r.name, r.gas);
      }
    }
  }

  /** Every charge is either direct or nested. */
  lemma {:induction false} DirectAndNested(w: seq<Role>)
    ensures Tally(w) == Tally(Direct(w)).Merge(Tally(Nested(w)))
  {
    if w == [] {
      MergeEmpty(EMPTY_LEDGER);
    } else {
      var v, r := w[..|w| - 1], w[|w| - 1];
      assert Tally(v + [r]) == Tally(Direct(v + [r])).Merge(Tally(Nested(v + [r]))) by {
        DirectAndNested(v);
        DirectAndNestedStep(v, r);
      }
      Unsnoc(w);
    }
  }

  lemma DirectAndNestedStep(v: seq<Role>, r: Role)
    requires Tally(v) == Tally(Direct(v)).Merge(Tally(Nested(v)))
    ensures Tally(v + [r]) == Tally(Direct(v + [r])).Merge(Tally(Nested(v + [r])))
  {
    SnocTally(v, r);
    SnocDirect(v, r);
    if r.Charge? {
      if Net(Calls, v) == 0 {
        SnocTally(Direct(v), r);
        CreditLeft(Tally(Direct(v)), Tally(Nested(v)), r.name, r.gas);
      } else {
        SnocTally(Nested(v), r);
        CreditRight(Tally(Direct(v)), Tally(Nested(v)), r.name, r.gas);
      }
    }
  }

  lemma RunningCallNet(a: seq<Role>, open: Role, b: seq<Role>)
    requires Net(Calls, a) == 0 && open.Open? && open.key == Calls && StaysOpen(Calls, b)
    ensures Net(Calls, a + [open] + b) == 1 + Net(Calls, b) > 0
  {
    SnocNet(Calls, a, open);
    NetConcat(Calls, a + [open], b);
  }

  /** While the call opened after `a` runs, the last point at which all calls had returned is the end of `a`. */
  lemma {:induction false} RunningCallLevel(a: seq<Role>, open: Role, b: seq<Role>)
    requires Net(Calls, a) == 0 && open.Open? && open.key == Calls && StaysOpen(Calls, b)
    ensures Level(a + [open] + b) == a
  {
    RunningCallNet(a, open, b);
    if b == [] {
      ConcatNothing(a + [open]);
      SnocLevel(a, open);
    } else {
      var v, r := b[..|b| - 1], b[|b| - 1];
      RunningCallLevel(a, open, v);
      Unsnoc3(a, [open], b);
      SnocLevel(a + [open] + v, r);
    }
  }

  /** While the call opened after `a` runs, all charges are nested. */
  lemma {:induction false} RunningCallCharges(a: seq<Role>, open: Role, b: seq<Role>)
    requires Net(Calls, a) == 0 && open.Open? && open.key == Calls && StaysOpen(Calls, b)
    ensures Direct(a + [open] + b) == Direct(a)
    ensures Tally(Nested(a + [open] + b)) == Tally(Nested(a)).Merge(Tally(b))
  {
    if b == [] {
      ConcatNothing(a + [open]);
      SnocDirect(a, open);
      MergeEmpty(Tally(Nested(a)));
    } else {
      var v, r := b[..|b| - 1], b[|b| - 1];
      var w := a + [open] + v;
      RunningCallCharges(a, open, v);
      RunningCallNet(a, open, v);
      Unsnoc3(a, [open], b);
      SnocDirect(w, r);
      if r.Charge? {
        SnocTally(Nested(w), r);
        CreditRight(Tally(Nested(a)), Tally(v), r.name, r.gas);
      }
    }
  }

  lemma {:induction false} TallyBalanced(w: seq<Role>)
    ensures Tally(w).Balanced()
  {
    if w == [] {
      assert EMPTY_LEDGER.ComputeByName() == map[] && EMPTY_LEDGER.OtherByName() == map[];
    } else {
      TallyBalanced(w[..|w| - 1]);
      if w[|w| - 1].Charge? {
        CreditKeepsBalance(Tally(w[..|w| - 1]), w[|w| - 1].name, w[|w| - 1].gas);
      }
    }
  }

  // ---------- Prefixes ----------

  lemma {:induction false} WindowIsPrefix(c: Key, w: seq<Role>)
    ensures |Window(c, w)| <= |w| && Window(c, w) == w[..|Window(c, w)|]
    ensures StaysOpen(c, Window(c, w))
  {
    if !StaysOpen(c, w) {
      WindowIsPrefix(c, w[..|w| - 1]);
    }
  }

  lemma {:induction false} LevelIsPrefix(w: seq<Role>)
    ensures |Level(w)| <= |w| && Level(w) == w[..|Level(w)|]
  {
    if Net(Calls, w) != 0 && w != [] {
      LevelIsPrefix(w[..|w| - 1]);
    }
  }
}
