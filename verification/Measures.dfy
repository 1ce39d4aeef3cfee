/** How one more role changes the gas measured for a span. */
module Measures {
  import opened GasModel
  import opened Script

  function Credited(v: SpanValue, name: string, gas: Gas): SpanValue {
    v.(own := v.own.Credit(name, gas))
  }

  /** The span with its own gas added to its total. */
  function Settled(v: SpanValue): SpanValue {
    v.(total := v.total.Merge(v.own))
  }

  /** The span with the total of a closed child added to its total. */
  function Absorbed(v: SpanValue, child: SpanValue): SpanValue {
    v.(total := v.total.Merge(child.total))
  }

  lemma OpenNetNonNegative(c: Key, w: seq<Role>)
    requires StaysOpen(c, w)
    ensures Net(c, w) >= 0 && Window(c, w) == w
  {
  }

  /** A closed span never changes again. */
  lemma ClosedStays(c: Key, id: string, w: seq<Role>, r: Role)
    requires !StaysOpen(c, w)
    ensures Measure(c, id, w + [r]) == Measure(c, id, w)
    ensures !StaysOpen(c, w + [r])
  {
    SnocStaysOpen(c, w, r);
    SnocWindow(c, w, r);
  }

  /** A role without gas that neither closes the span nor returns from a child changes nothing. */
  lemma IdleStays(c: Key, id: string, w: seq<Role>, r: Role)
    requires StaysOpen(c, w) && StaysOpen(c, w + [r]) && !r.Charge?
    requires c == Calls && r == Close(Calls) ==> Net(Calls, w) != 1
    ensures Measure(c, id, w + [r]) == Measure(c, id, w)
  {
    OpenNetNonNegative(c, w);
    OpenNetNonNegative(c, w + [r]);
    SnocTally(w, r);
    SnocNet(c, w, r);
    SnocDirect(w, r);
    SnocLevel(w, r);
  }

  /** A charge goes to every open named span and to the innermost open call. */
  lemma ChargeCredits(c: Key, id: string, w: seq<Role>, r: Role)
    requires StaysOpen(c, w) && r.Charge?
    ensures StaysOpen(c, w + [r])
    ensures Measure(c, id, w + [r])
         == if c == Calls && Net(Calls, w) > 0 then Measure(c, id, w)
            else Credited(Measure(c, id, w), r.name, r.gas)
  {
    SnocNet(c, w, r);
    SnocStaysOpen(c, w, r);
    OpenNetNonNegative(c, w);
    OpenNetNonNegative(c, w + [r]);
    SnocTally(w, r);
    SnocTally(Direct(w), r);
    SnocDirect(w, r);
    SnocLevel(w, r);
  }

  lemma MatchingClose(c: Key, w: seq<Role>)
    requires StaysOpen(c, w) && Net(c, w) == 0
    ensures !StaysOpen(c, w + [Close(c)]) && Window(c, w + [Close(c)]) == w
  {
    SnocNet(c, w, Close(c));
    SnocStaysOpen(c, w, Close(c));
    SnocWindow(c, w, Close(c));
  }

  lemma CallCloseSettles(id: string, w: seq<Role>)
    requires StaysOpen(Calls, w) && Net(Calls, w) == 0
    ensures Measure(Calls, id, w + [Close(Calls)]) == Settled(Measure(Calls, id, w))
  {
    MatchingClose(Calls, w);
    DirectAndNested(w);
    MergeCommutes(Tally(Direct(w)), Tally(Nested(w)));
  }

  lemma NamedCloseSettles(c: Key, id: string, w: seq<Role>)
    requires c.Named? && StaysOpen(c, w) && Net(c, w) == 0
    ensures Measure(c, id, w + [Close(c)]) == Settled(Measure(c, id, w))
  {
    MatchingClose(c, w);
    MergeEmpty(Tally(w));
  }

  /** The matching close adds the span's own gas to its total. */
  lemma CloseSettles(c: Key, id: string, w: seq<Role>)
    requires StaysOpen(c, w) && Net(c, w) == 0
    ensures Measure(c, id, w + [Close(c)]) == Settled(Measure(c, id, w))
  {
    match c
    case Calls => CallCloseSettles(id, w);
    case Named(_) => NamedCloseSettles(c, id, w);
  }

  /** Everything charged while a call ran ends up in its total. */
  lemma CallTotal(id: string, b: seq<Role>)
    requires StaysOpen(Calls, b) && Net(Calls, b) == 0
    ensures Settled(Measure(Calls, id, b)).total == Tally(b)
  {
    MatchingClose(Calls, b);
    CallCloseSettles(id, b);
  }

  lemma MeasureAfterReturn(id: string, w: seq<Role>)
    requires StaysOpen(Calls, w) && Net(Calls, w) == 1
    ensures StaysOpen(Calls, w + [Close(Calls)])
    ensures Measure(Calls, id, w + [Close(Calls)]) == SpanValue(id, Tally(Direct(w)), Tally(Nested(w)))
  {
    SnocNet(Calls, w, Close(Calls));
    SnocStaysOpen(Calls, w, Close(Calls));
    SnocDirect(w, Close(Calls));
    SnocLevel(w, Close(Calls));
  }

  lemma MeasureWhileRunning(id: string, a: seq<Role>, open: Role, b: seq<Role>)
    requires open.Open? && open.key == Calls && Net(Calls, a) == 0
    requires StaysOpen(Calls, b) && StaysOpen(Calls, a + [open] + b)
    ensures Measure(Calls, id, a + [open] + b) == SpanValue(id, Tally(Direct(a)), Tally(Nested(a)))
  {
    RunningCallLevel(a, open, b);
    RunningCallCharges(a, open, b);
  }

  lemma MeasureAfterChild(id: string, w: seq<Role>, a: seq<Role>, open: Role, b: seq<Role>)
    requires open.Open? && open.key == Calls && Net(Calls, a) == 0
    requires StaysOpen(Calls, b) && Net(Calls, b) == 0
    requires w == a + [open] + b && StaysOpen(Calls, w)
    ensures Measure(Calls, id, w + [Close(Calls)])
         == SpanValue(id, Tally(Direct(a)), Tally(Nested(a)).Merge(Tally(b)))
  {
    RunningCallNet(a, open, b);
    MeasureAfterReturn(id, w);
    RunningCallCharges(a, open, b);
  }

  /** A child's return adds everything charged while it ran to the parent's total. */
  lemma ReturnAbsorbs(id: string, childId: string, w: seq<Role>, a: seq<Role>, open: Role, b: seq<Role>)
    requires open.Open? && open.key == Calls && Net(Calls, a) == 0
    requires StaysOpen(Calls, b) && Net(Calls, b) == 0
    requires w == a + [open] + b && StaysOpen(Calls, w)
    ensures Measure(Calls, id, w + [Close(Calls)])
         == Absorbed(Measure(Calls, id, w), Settled(Measure(Calls, childId, b)))
  {
    MeasureAfterChild(id, w, a, open, b);
    MeasureWhileRunning(id, a, open, b);
    CallTotal(childId, b);
  }
}
