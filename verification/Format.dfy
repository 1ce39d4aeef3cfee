/** The amounts shown for a span: rounding to gas units, and the order in which they are listed. */
module Format {
  import opened Sequences
  import opened Wrappers
  import opened Maps
  import opened GasModel
  import opened Trace
  import opened Script
  import opened Runs
  import opened Events
  import opened EventSpans

  // ---------- Rounding ----------

  /** Milligas rounded to gas units: up, except that less than one unit counts as nothing. */
  function Units(millis: nat): (units: nat)
    ensures millis < 1000 ==> units == 0
    ensures millis >= 1000 ==> 1000 * (units - 1) < millis <= 1000 * units
  {
    var whole := millis / 1000;
    if whole != 0 && millis % 1000 != 0 then whole + 1 else whole
  }

  lemma UnitsMonotone(a: nat, b: nat)
    requires a <= b
    ensures Units(a) <= Units(b)
  {
  }

  /** The amount shown for a charge; None is the u64 overflow of adding its dimensions. */
  function Total(g: GasCharge): (units: Option<nat>)
    ensures units.Some? <==> g.computeMilli + g.otherMilli <= U64_MAX
    ensures units.Some? ==> units.value == Units(g.computeMilli + g.otherMilli) <= U64_MAX
  {
    if g.computeMilli + g.otherMilli > U64_MAX then None else Some(Units(g.computeMilli + g.otherMilli))
  }

  // ---------- Stable sorting ----------

  datatype Bit = Bit(name: string, units: nat)

  ghost predicate Descending(s: seq<Bit>) {
    forall i, j | 0 <= i < j < |s| :: s[i].units >= s[j].units
  }

  /** The entries with a given amount, in order. */
  function WithUnits(s: seq<Bit>, units: nat): seq<Bit> {
    if s == [] then [] else
    (if s[0].units == units then [s[0]] else []) + WithUnits(s[1..], units)
  }

  /** Sorted by descending amount, with equal amounts in their original order. */
  ghost predicate IsStableSort(before: seq<Bit>, after: seq<Bit>) {
    Descending(after) && forall units: nat :: WithUnits(after, units) == WithUnits(before, units)
  }

  /** Puts an entry in front of the first one that does not exceed it. */
  function Insert(b: Bit, s: seq<Bit>): seq<Bit> {
    if s == [] || s[0].units <= b.units then [b] + s else [s[0]] + Insert(b, s[1..])
  }

  /** The result of the library's stable sort (see StableSortUnique). */
  function StableSort(s: seq<Bit>): seq<Bit> {
    if s == [] then [] else Insert(s[0], StableSort(s[1..]))
  }

  lemma WithUnitsFirst(b: Bit, s: seq<Bit>, units: nat)
    ensures WithUnits([b] + s, units) == (if b.units == units then [b] else []) + WithUnits(s, units)
  {
    assert ([b] + s)[1..] == s;
  }

  lemma {:induction false} NothingAbove(s: seq<Bit>, units: nat)
    requires forall i | 0 <= i < |s| :: s[i].units < units
    ensures WithUnits(s, units) == []
  {
    if s != [] {
      NothingAbove(s[1..], units);
    }
  }

  lemma {:induction false} InsertWithUnits(b: Bit, s: seq<Bit>, units: nat)
    requires Descending(s)
    ensures WithUnits(Insert(b, s), units) == WithUnits([b] + s, units)
  {
    if s != [] && s[0].units > b.units {
      InsertWithUnits(b, s[1..], units);
      WithUnitsFirst(s[0], Insert(b, s[1..]), units);
      WithUnitsFirst(b, s, units);
      WithUnitsFirst(b, s[1..], units);
    }
  }

  lemma {:induction false} InsertDescending(b: Bit, s: seq<Bit>)
    requires Descending(s)
    ensures Descending(Insert(b, s))
    ensures forall i | 0 <= i < |Insert(b, s)| :: Insert(b, s)[i] == b || Insert(b, s)[i] in s
  {
    if s != [] && s[0].units > b.units {
      InsertDescending(b, s[1..]);
    }
  }

  /** The sort is a stable descending sort. */
  lemma {:induction false} StableSortCorrect(s: seq<Bit>)
    ensures IsStableSort(s, StableSort(s))
  {
    if s != [] {
      StableSortCorrect(s[1..]);
      InsertDescending(s[0], StableSort(s[1..]));
      forall units: nat ensures WithUnits(StableSort(s), units) == WithUnits(s, units) {
        InsertWithUnits(s[0], StableSort(s[1..]), units);
        WithUnitsFirst(s[0], StableSort(s[1..]), units);
      }
    }
  }

  lemma {:induction false} FirstAtLeast(a: seq<Bit>, b: seq<Bit>)
    requires a != [] && Descending(b)
    requires forall units: nat :: WithUnits(a, units) == WithUnits(b, units)
    ensures b != [] && b[0].units >= a[0].units
  {
    assert WithUnits(b, a[0].units) == WithUnits(a, a[0].units) != [];
    if b == [] || b[0].units < a[0].units {
      NothingAbove(b, a[0].units);
    }
  }

  lemma SameFirst(a: seq<Bit>, b: seq<Bit>)
    requires a != [] && Descending(a) && Descending(b)
    requires forall units: nat :: WithUnits(a, units) == WithUnits(b, units)
    ensures b != [] && a[0] == b[0]
  {
    FirstAtLeast(a, b);
    FirstAtLeast(b, a);
    assert WithUnits(a, a[0].units)[0] == a[0];
    assert WithUnits(b, b[0].units)[0] == b[0];
  }

  /** There is only one stable descending sort of a sequence, whatever algorithm computes it. */
  lemma {:induction false} StableSortUnique(a: seq<Bit>, b: seq<Bit>)
    requires Descending(a) && Descending(b)
    requires forall units: nat :: WithUnits(a, units) == WithUnits(b, units)
    ensures a == b
  {
    if a == [] {
      if b != [] {
        SameFirst(b, a);
      }
    } else {
      SameFirst(a, b);
      assert a == [a[0]] + a[1..] && b == [b[0]] + b[1..];
      forall units: nat ensures WithUnits(a[1..], units) == WithUnits(b[1..], units) {
        var head := if a[0].units == units then [a[0]] else [];
        assert WithUnits(a, units) == head + WithUnits(a[1..], units);
        assert WithUnits(b, units) == head + WithUnits(b[1..], units);
        CancelPrefix(head, WithUnits(a[1..], units), WithUnits(b[1..], units));
      }
      StableSortUnique(a[1..], b[1..]);
    }
  }

  lemma {:induction false} WithUnitsCounts(s: seq<Bit>, b: Bit)
    ensures multiset(s)[b] == multiset(WithUnits(s, b.units))[b]
  {
    if s != [] {
      WithUnitsCounts(s[1..], b);
      assert s == [s[0]] + s[1..];
    }
  }

  /** Sorting only permutes. */
  lemma StableSortPermutes(before: seq<Bit>, after: seq<Bit>)
    requires IsStableSort(before, after)
    ensures multiset(before) == multiset(after) && |before| == |after|
  {
    forall b: Bit ensures multiset(before)[b] == multiset(after)[b] {
      WithUnitsCounts(before, b);
      WithUnitsCounts(after, b);
    }
    assert |multiset(before)| == |before| && |multiset(after)| == |after|;
  }

  /** An entry that starts out first and is not exceeded by any other stays first; the rest is permuted. */
  lemma LargestStaysFirst(first: Bit, rest: seq<Bit>, after: seq<Bit>)
    requires forall i | 0 <= i < |rest| :: rest[i].units <= first.units
    requires IsStableSort([first] + rest, after)
    ensures after != [] && after[0] == first
    ensures multiset(after[1..]) == multiset(rest)
  {
    var before := [first] + rest;
    StableSortPermutes(before, after);
    assert after[0] in multiset(after);
    assert after[0] in multiset(before);
    assert after[0] in before;
    assert first in multiset(before);
    assert first in multiset(after);
    assert first in after;
    assert after[0].units == first.units;
    assert WithUnits(after, first.units)[0] == after[0];
    assert WithUnits(before, first.units)[0] == first;
    assert after == [after[0]] + after[1..];
    assert multiset(before) == multiset{first} + multiset(rest);
    assert multiset(after) == multiset{first} + multiset(after[1..]);
    assert multiset(after[1..]) == multiset(after) - multiset{first};
  }

  // ---------- The entries of a span ----------

  /** `entries` lists each of the given names once, with its rounded amount, in some order. */
  ghost predicate ListsNames(entries: seq<Bit>, names: set<string>, charges: map<string, Gas>)
    requires names <= charges.Keys
  {
    && |entries| == |names|
    && (forall i | 0 <= i < |entries| ::
          entries[i].name in names && entries[i].units == Units(charges[entries[i].name].Milli()))
    && (forall i, j | 0 <= i < j < |entries| :: entries[i].name != entries[j].name)
  }

  /** `entries` lists the whole breakdown in some order. */
  ghost predicate Lists(entries: seq<Bit>, charges: map<string, Gas>) {
    ListsNames(entries, charges.Keys, charges)
  }

  function SumBit(sum: Gas): Bit {
    Bit("sum", Units(sum.Milli()))
  }

  /** Whatever order the breakdown is visited in, the "sum" entry is printed first and the others are permuted. */
  lemma {:induction false} SumComesFirst(l: Ledger, entries: seq<Bit>, printed: seq<Bit>)
    requires l.Balanced() && Lists(entries, l.byName)
    requires IsStableSort([SumBit(l.sum)] + entries, printed)
    ensures printed != [] && printed[0] == SumBit(l.sum)
    ensures multiset(printed[1..]) == multiset(entries)
  {
    forall i | 0 <= i < |entries| ensures entries[i].units <= SumBit(l.sum).units {
      EntryAtMostSum(l, entries[i].name);
      UnitsMonotone(l.byName[entries[i].name].Milli(), l.sum.Milli());
    }
    LargestStaysFirst(SumBit(l.sum), entries, printed);
  }

  /** "sum" is printed first for the own and the total gas of every span of every analysis. */
  lemma SumFirstInEverySpan(t: ExecutionTrace, i: nat, l: Ledger, entries: seq<Bit>, printed: seq<Bit>)
    requires i < |SpansOf(FullScript(t))|
    requires l == SpansOf(FullScript(t))[i].own || l == SpansOf(FullScript(t))[i].total
    requires Lists(entries, l.byName) && IsStableSort([SumBit(l.sum)] + entries, printed)
    ensures printed != [] && printed[0] == Bit("sum", Units(l.sum.computeMilli + l.sum.otherMilli))
    ensures multiset(printed[1..]) == multiset(entries)
  {
    SpansAreBalanced(FullScript(t), i);
    SumComesFirst(l, entries, printed);
  }

  /** Every addition of dimensions made when listing these amounts stays within u64. */
  ghost predicate Printable(sum: Gas, charges: map<string, Gas>) {
    sum.Milli() <= U64_MAX && forall n | n in charges :: charges[n].Milli() <= U64_MAX
  }

  /** The rounded entries of the breakdown, visited in an arbitrary order. */
  method CollectBits(charges: map<string, GasCharge>) returns (r: Option<seq<Bit>>)
    ensures r.Some? <==> forall n | n in charges :: charges[n].Milli() <= U64_MAX
    ensures r.Some? ==> Lists(r.value, charges)
  {
    var entries: seq<Bit> := [];
    var names := charges.Keys;
    ghost var visited: set<string> := {};
    while names != {}
      invariant names + visited == charges.Keys && names !! visited
      invariant ListsNames(entries, visited, charges)
      invariant forall n | n in visited :: charges[n].Milli() <= U64_MAX
    {
      var k :| k in names;
      var total := Total(charges[k]);
      if total.None? {
        return None;
      }
      ListsOneMore(entries, visited, charges, k);
      entries := entries + [Bit(k, total.value)];
      visited := visited + {k};
      names := names - {k};
    }
    assert visited == charges.Keys;
    r := Some(entries);
  }

  /** Lists the amounts of a span, largest first; None is an overflow. */
  method FormatGasBits(sum: GasCharge, charges: map<string, GasCharge>) returns (r: Option<seq<Bit>>)
    ensures r.Some? <==> Printable(sum, charges)
    ensures r.Some? ==> exists entries ::
              Lists(entries, charges) && IsStableSort([SumBit(sum)] + entries, r.value)
    ensures r.Some? && Ledger(sum, charges).Balanced() ==> r.value != [] && r.value[0] == SumBit(sum)
  {
    var total := Total(sum);
    if total.None? {
      return None;
    }
    var entries := CollectBits(charges);
    if entries.None? {
      return None;
    }
    var bits := [Bit("sum", total.value)] + entries.value;
    SortedBits(sum, charges, entries.value, bits);
    r := Some(StableSort(bits));
  }

  lemma SortedBits(sum: Gas, charges: map<string, Gas>, entries: seq<Bit>, bits: seq<Bit>)
    requires Lists(entries, charges) && bits == [SumBit(sum)] + entries
    ensures IsStableSort([SumBit(sum)] + entries, StableSort(bits))
    ensures Ledger(sum, charges).Balanced() ==> StableSort(bits) != [] && StableSort(bits)[0] == SumBit(sum)
  {
    StableSortCorrect(bits);
    if Ledger(sum, charges).Balanced() {
      SumComesFirst(Ledger(sum, charges), entries, StableSort(bits));
    }
  }

  lemma ListsOneMore(entries: seq<Bit>, names: set<string>, charges: map<string, Gas>, k: string)
    requires names <= charges.Keys && ListsNames(entries, names, charges) && k in charges && k !in names
    ensures ListsNames(entries + [Bit(k, Units(charges[k].Milli()))], names + {k}, charges)
  {
  }

  // ---------- When everything can be printed ----------

  lemma PrintableUpTo(l: Ledger, cap: nat)
    requires l.Balanced() && l.sum.Milli() <= cap <= U64_MAX
    ensures Printable(l.sum, l.byName)
  {
    forall n | n in l.byName ensures l.byName[n].Milli() <= U64_MAX {
      EntryAtMostSum(l, n);
    }
  }

  ghost predicate AllPrintable(spans: seq<SpanValue>) {
    forall i | 0 <= i < |spans| ::
      Printable(spans[i].own.sum, spans[i].own.byName) && Printable(spans[i].total.sum, spans[i].total.byName)
  }

  lemma {:induction false} SpanPrintable(s: seq<Role>, i: nat, v: SpanValue)
    requires i < |Openers(s)| && v == SpanOf(s, i) && Tally(s).sum.Milli() <= U64_MAX
    ensures Printable(v.own.sum, v.own.byName) && Printable(v.total.sum, v.total.byName)
  {
    SpanAtMost(s, i, v);
    SpansAreBalanced(s, i);
    PrintableUpTo(v.own, Tally(s).sum.Milli());
    PrintableUpTo(v.total, Tally(s).sum.Milli());
  }

  lemma FullTally(t: ExecutionTrace)
    ensures Tally(FullScript(t)) == Tally(Roles(t))
  {
    RootedTally(Roles(t));
    SnocTally([ROOT_OPEN] + Roles(t), ROOT_CLOSE);
  }

  /** Formatting a whole analysis overflows nowhere exactly when both dimensions together fit in u64. */
  lemma FormattingOverflow(t: ExecutionTrace)
    requires Analysable(t)
    ensures AllPrintable(SpansOf(FullScript(t))) <==> ComputeCharged(t) + OtherCharged(t) <= U64_MAX
  {
    CompletionMeaning(t);
    TotalGasMeaning(t);
    var spans := SpansOf(FullScript(t));
    if TotalGas(t).Milli() <= U64_MAX {
      FullTally(t);
      forall i | 0 <= i < |spans|
        ensures Printable(spans[i].own.sum, spans[i].own.byName)
        ensures Printable(spans[i].total.sum, spans[i].total.byName)
      {
        SpanPrintable(FullScript(t), i, spans[i]);
      }
    } else {
      RootTotal(t);
      assert !Printable(spans[0].total.sum, spans[0].total.byName);
    }
  }

  // ---------- How far the printed amounts are from adding up ----------

  ghost function MilliByName(l: Ledger): map<string, nat> {
    map n | n in l.byName :: l.byName[n].Milli()
  }

  ghost function Rounded(m: map<string, nat>): map<string, nat> {
    map n | n in m :: Units(m[n])
  }

  lemma {:induction false} MilliAddsUp(a: map<string, nat>, b: map<string, nat>, m: map<string, nat>)
    requires a.Keys == b.Keys == m.Keys && forall n | n in m :: m[n] == a[n] + b[n]
    ensures SumValues(m) == SumValues(a) + SumValues(b)
    decreases |m|
  {
    if m == map[] {
      assert a == map[] && b == map[];
    } else {
      var k :| k in m;
      SumWithout(a, k);
      SumWithout(b, k);
      SumWithout(m, k);
      MilliAddsUp(a - {k}, b - {k}, m - {k});
    }
  }

  lemma {:induction false} RoundingAddsUp(m: map<string, nat>)
    ensures 1000 * SumValues(Rounded(m)) <= SumValues(m) + 999 * |m|
    ensures SumValues(m) <= 1000 * SumValues(Rounded(m)) + 999 * |m|
    ensures (forall n | n in m :: m[n] < 1000) ==> SumValues(Rounded(m)) == 0
    decreases |m|
  {
    if m == map[] {
      assert Rounded(m) == map[];
    } else {
      var k :| k in m;
      RoundingAddsUp(m - {k});
      SumWithout(m, k);
      SumWithout(Rounded(m), k);
      assert Rounded(m) - {k} == Rounded(m - {k});
    }
  }

  lemma RoundingErrorOf(m: map<string, nat>)
    ensures var shown, k := SumValues(Rounded(m)), |m|;
            && Units(SumValues(m)) <= shown + k
            && shown <= Units(SumValues(m)) + if k == 0 then 0 else k - 1
  {
    RoundingAddsUp(m);
    if SumValues(m) < 1000 {
      forall n | n in m ensures m[n] < 1000 {
        ValueAtMostSum(m, n);
      }
    }
  }

  /**
   The printed amounts of k names miss the printed sum by at most k from below and by less than k from above.
   */
  lemma {:induction false} RoundingError(l: Ledger)
    requires l.Balanced()
    ensures var shown, k := SumValues(Rounded(MilliByName(l))), |l.byName|;
            && Units(l.sum.Milli()) <= shown + k
            && shown <= Units(l.sum.Milli()) + if k == 0 then 0 else k - 1
  {
    var m := MilliByName(l);
    MilliAddsUp(l.ComputeByName(), l.OtherByName(), m);
    RoundingErrorOf(m);
    assert m.Keys == l.byName.Keys;
    assert |m| == |m.Keys| && |l.byName| == |l.byName.Keys|;
  }

  lemma SumOfTwo(j: string, k: string, a: nat, b: nat)
    requires j != k
    ensures SumValues(map[j := a, k := b]) == a + b
  {
    SumUpdate(map[], j, a);
    SumUpdate(map[j := a], k, b);
    assert map[][j := a][k := b] == map[j := a, k := b];
  }

  lemma TwoChargesBalance(j: string, k: string, l: Ledger)
    requires j != k && l == Ledger(Gas(1998, 0), map[j := Gas(999, 0), k := Gas(999, 0)])
    ensures l.Balanced()
  {
    assert l.ComputeByName() == map[j := 999, k := 999];
    assert l.OtherByName() == map[j := 0, k := 0];
    SumOfTwo(j, k, 999, 999);
    SumOfTwo(j, k, 0, 0);
  }

  lemma TwoChargesRound(j: string, k: string, m: map<string, nat>)
    requires j != k && m == map[j := 999, k := 999]
    ensures |m| == 2 && SumValues(Rounded(m)) == 0
  {
    assert Rounded(m) == map[j := 0, k := 0];
    SumOfTwo(j, k, 0, 0);
    assert m.Keys == {j, k};
    assert |m| == |m.Keys|;
  }

  /** The bound from below is reached: two names of 999 milligas are shown as nothing, their sum as 2. */
  lemma RoundingErrorReached(j: string, k: string, l: Ledger)
    requires j != k && l == Ledger(Gas(1998, 0), map[j := Gas(999, 0), k := Gas(999, 0)])
    ensures l.Balanced() && |MilliByName(l)| == 2
    ensures Units(l.sum.Milli()) == 2 && SumValues(Rounded(MilliByName(l))) == 0
  {
    TwoChargesBalance(j, k, l);
    assert MilliByName(l) == map[j := 999, k := 999];
    TwoChargesRound(j, k, MilliByName(l));
  }
}
