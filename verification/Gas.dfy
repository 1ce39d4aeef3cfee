/** Gas amounts in two dimensions, and ledgers that account for gas by charge name. */
module GasModel {
  import opened Maps

  const U64_MAX: nat := 0xFFFF_FFFF_FFFF_FFFF

  type U64 = n: nat | n <= U64_MAX

  /** An amount of gas in milligas, without a bound. `GasCharge` below is the bounded one the program stores. */
  datatype Gas = Gas(computeMilli: nat, otherMilli: nat) {
    function Plus(g: Gas): Gas {
      Gas(computeMilli + g.computeMilli, otherMilli + g.otherMilli)
    }

    predicate Fits() {
      computeMilli <= U64_MAX && otherMilli <= U64_MAX
    }

    predicate AtMost(g: Gas) {
      computeMilli <= g.computeMilli && otherMilli <= g.otherMilli
    }

    function Milli(): nat {
      computeMilli + otherMilli
    }
  }

  const NO_GAS := Gas(0, 0)

  /** The program's gas amount: each dimension is a u64. */
  type GasCharge = g: Gas | g.Fits() witness NO_GAS

  /** A sum of charges together with its breakdown by charge name. */
  datatype Ledger = Ledger(sum: Gas, byName: map<string, Gas>) {
    function At(name: string): Gas {
      if name in byName then byName[name] else NO_GAS
    }

    function Credit(name: string, g: Gas): Ledger {
      Ledger(sum.Plus(g), byName[name := if name in byName then byName[name].Plus(g) else g])
    }

    function Merge(other: Ledger): Ledger {
      Ledger(Gas(sum.computeMilli + other.sum.computeMilli, sum.otherMilli + other.sum.otherMilli),
             map n | n in byName.Keys + other.byName.Keys ::
               if n !in byName then other.byName[n]
               else if n !in other.byName then byName[n]
               else byName[n].Plus(other.byName[n]))
    }

    ghost predicate Fits() {
      sum.Fits() && forall n | n in byName :: byName[n].Fits()
    }

    /** The breakdown adds up to the sum in both dimensions. */
    ghost predicate Balanced() {
      sum.computeMilli == SumValues(ComputeByName()) && sum.otherMilli == SumValues(OtherByName())
    }

    ghost function ComputeByName(): map<string, nat> {
      map n | n in byName :: byName[n].computeMilli
    }

    ghost function OtherByName(): map<string, nat> {
      map n | n in byName :: byName[n].otherMilli
    }
  }

  const EMPTY_LEDGER := Ledger(NO_GAS, map[])

  lemma MergeEmpty(a: Ledger)
    ensures a.Merge(EMPTY_LEDGER) == a && EMPTY_LEDGER.Merge(a) == a
  {
    assert a.Merge(EMPTY_LEDGER).byName == a.byName;
    assert EMPTY_LEDGER.Merge(a).byName == a.byName;
  }

  lemma MergeCommutes(a: Ledger, b: Ledger)
    ensures a.Merge(b) == b.Merge(a)
  {
    assert a.Merge(b).byName == b.Merge(a).byName;
  }

  lemma {:induction false} MergeAssociates(a: Ledger, b: Ledger, c: Ledger)
    ensures a.Merge(b).Merge(c) == a.Merge(b.Merge(c))
  {
    assert a.Merge(b).Merge(c).byName == a.Merge(b.Merge(c)).byName;
  }

  /** A credit to the right side of a merge is a credit to the merge. */
  lemma {:induction false} CreditRight(a: Ledger, b: Ledger, name: string, g: Gas)
    ensures a.Merge(b.Credit(name, g)) == a.Merge(b).Credit(name, g)
  {
    assert a.Merge(b.Credit(name, g)).byName == a.Merge(b).Credit(name, g).byName;
  }

  /** A credit to the left side of a merge is a credit to the merge. */
  lemma CreditLeft(a: Ledger, b: Ledger, name: string, g: Gas)
    ensures a.Credit(name, g).Merge(b) == a.Merge(b).Credit(name, g)
  {
    MergeCommutes(a.Credit(name, g), b);
    CreditRight(b, a, name, g);
    MergeCommutes(a, b);
  }

  lemma CreditKeepsBalance(a: Ledger, name: string, g: Gas)
    requires a.Balanced()
    ensures a.Credit(name, g).Balanced()
  {
    var b := a.Credit(name, g);
    SumUpdate(a.ComputeByName(), name, b.byName[name].computeMilli);
    SumUpdate(a.OtherByName(), name, b.byName[name].otherMilli);
    assert b.ComputeByName() == a.ComputeByName()[name := b.byName[name].computeMilli];
    assert b.OtherByName() == a.OtherByName()[name := b.byName[name].otherMilli];
  }

  /** In a balanced ledger every entry is at most the sum, so a sum that fits makes every entry fit. */
  lemma EntryAtMostSum(a: Ledger, name: string)
    requires a.Balanced() && name in a.byName
    ensures a.byName[name].AtMost(a.sum)
  {
    ValueAtMostSum(a.ComputeByName(), name);
    ValueAtMostSum(a.OtherByName(), name);
  }

  lemma BalancedFits(a: Ledger)
    requires a.Balanced() && a.sum.Fits()
    ensures a.Fits()
  {
    forall n | n in a.byName ensures a.byName[n].Fits() {
      EntryAtMostSum(a, n);
    }
  }
}
