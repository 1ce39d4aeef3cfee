/**
 What a trace says, read directly off its events: the gas it charges, the calls and returns in it, and
 the span messages in its log. Nothing here depends on how the analysis or the conversion reads events.
 */
module Events {
  import opened Sequences
  import opened GasModel
  import opened Trace
  import opened Markers

  // ---------- Gas ----------

  function ComputeCharged(t: ExecutionTrace): nat {
    if t == [] then 0 else
    ComputeCharged(ButLast(t)) + if Last(t).GasCharged? then Last(t).computeMilli else 0
  }

  function OtherCharged(t: ExecutionTrace): nat {
    if t == [] then 0 else
    OtherCharged(ButLast(t)) + if Last(t).GasCharged? then Last(t).otherMilli else 0
  }

  /** The gas charged fits in u64 in each dimension. */
  predicate GasFits(t: ExecutionTrace) {
    ComputeCharged(t) <= U64_MAX && OtherCharged(t) <= U64_MAX
  }

  predicate ChargesUnder(e: ExecutionEvent, name: string) {
    e.GasCharged? && e.name == name
  }

  function ComputeUnder(t: ExecutionTrace, name: string): nat {
    if t == [] then 0 else
    ComputeUnder(ButLast(t), name) + if ChargesUnder(Last(t), name) then Last(t).computeMilli else 0
  }

  function OtherUnder(t: ExecutionTrace, name: string): nat {
    if t == [] then 0 else
    OtherUnder(ButLast(t), name) + if ChargesUnder(Last(t), name) then Last(t).otherMilli else 0
  }

  ghost predicate MentionsCharge(t: ExecutionTrace, name: string) {
    exists i :: 0 <= i < |t| && ChargesUnder(t[i], name)
  }

  /** The ledger lists exactly the charge names of the events, with what they charge, and sums all charges. */
  ghost predicate Holds(l: Ledger, t: ExecutionTrace) {
    && l.sum.computeMilli == ComputeCharged(t) && l.sum.otherMilli == OtherCharged(t)
    && forall name :: HoldsUnder(l, t, name)
  }

  ghost predicate HoldsUnder(l: Ledger, t: ExecutionTrace, name: string) {
    && (name in l.byName <==> MentionsCharge(t, name))
    && (name in l.byName ==> l.byName[name].computeMilli == ComputeUnder(t, name))
    && (name in l.byName ==> l.byName[name].otherMilli == OtherUnder(t, name))
  }

  // ---------- Calls ----------

  predicate Returns(e: ExecutionEvent) {
    e.CallReturn? || e.CallError?
  }

  function CallsMade(t: ExecutionTrace): nat {
    if t == [] then 0 else CallsMade(ButLast(t)) + if Last(t).Call? then 1 else 0
  }

  /** Calls minus returns. */
  function CallDepth(t: ExecutionTrace): int {
    if t == [] then 0 else
    CallDepth(ButLast(t)) + if Last(t).Call? then 1 else if Returns(Last(t)) then -1 else 0
  }

  /** No prefix returns from more calls than it makes. */
  ghost predicate CallsStayOpen(t: ExecutionTrace) {
    forall k | 0 <= k <= |t| :: CallDepth(t[..k]) >= 0
  }

  /** Event `q` is the return of the call that event `p` makes. */
  ghost predicate ReturnsAt(t: ExecutionTrace, p: nat, q: nat) {
    && p < q < |t| && t[p].Call? && Returns(t[q])
    && CallDepth(t[p + 1..q]) == 0 && CallsStayOpen(t[p + 1..q])
  }

  /** The charges made outside every call of the trace. */
  function DirectCharges(t: ExecutionTrace): ExecutionTrace {
    if t == [] then [] else
    DirectCharges(ButLast(t)) + if Last(t).GasCharged? && CallDepth(ButLast(t)) == 0 then [Last(t)] else []
  }

  // ---------- Span messages ----------

  /** `name` is `text` without the white space at both ends. */
  ghost predicate TrimsTo(text: string, name: string) {
    exists i, j | 0 <= i <= j <= |text| :: TrimsAt(text, i, j) && name == text[i..j]
  }

  ghost predicate TrimsAt(text: string, i: nat, j: nat)
    requires i <= j <= |text|
  {
    && (forall k | 0 <= k < i :: IsWhitespace(text[k]))
    && (forall k | j <= k < |text| :: IsWhitespace(text[k]))
    && (i < j ==> !IsWhitespace(text[i]) && !IsWhitespace(text[j - 1]))
  }

  /** A message whose first `SpanStart:` is followed by the label. */
  ghost predicate StartsSpan(e: ExecutionEvent, name: string) {
    e.Log? && exists before: string, text: string | e.msg == before + "SpanStart:" + text ::
      !Occurs(before, "SpanStart:") && TrimsTo(text, name)
  }

  /** A message without `SpanStart:` whose first `SpanEnd:` is followed by the label. */
  ghost predicate EndsSpan(e: ExecutionEvent, name: string) {
    e.Log? && exists before: string, text: string | e.msg == before + "SpanEnd:" + text ::
      !Occurs(before, "SpanEnd:") && !Occurs(e.msg, "SpanStart:") && TrimsTo(text, name)
  }

  /** Starts minus ends of a label. */
  ghost function LabelDepth(t: ExecutionTrace, name: string): int {
    if t == [] then 0 else
    LabelDepth(ButLast(t), name)
    + if StartsSpan(Last(t), name) then 1 else if EndsSpan(Last(t), name) then -1 else 0
  }

  /** No prefix ends the label more often than it starts it. */
  ghost predicate LabelStaysOpen(t: ExecutionTrace, name: string) {
    forall k | 0 <= k <= |t| :: LabelDepth(t[..k], name) >= 0
  }

  /** Event `q` ends the span that event `p` starts under `name`. */
  ghost predicate EndsAt(t: ExecutionTrace, p: nat, q: nat, name: string) {
    && p < q < |t| && StartsSpan(t[p], name) && EndsSpan(t[q], name)
    && LabelDepth(t[p + 1..q], name) == 0 && LabelStaysOpen(t[p + 1..q], name)
  }

  /** No return without its call and no span end without its start. */
  ghost predicate NothingUnmatched(t: ExecutionTrace) {
    CallsStayOpen(t) && forall name :: LabelStaysOpen(t, name)
  }

  /** Every return has its call, every call its return, and every span end its start. */
  ghost predicate Analysable(t: ExecutionTrace) {
    NothingUnmatched(t) && CallDepth(t) == 0
  }

  // ---------- Spans ----------

  ghost predicate OpensSpan(e: ExecutionEvent) {
    e.Call? || exists name :: StartsSpan(e, name)
  }

  /** How many spans the events open: the next one gets this number plus one, as Root is number zero. */
  ghost function SpansOpened(t: ExecutionTrace): nat {
    if t == [] then 0 else SpansOpened(ButLast(t)) + if OpensSpan(Last(t)) then 1 else 0
  }

  // ---------- Taking traces apart ----------

  lemma {:induction false} DepthConcatenates(a: ExecutionTrace, b: ExecutionTrace)
    ensures CallDepth(a + b) == CallDepth(a) + CallDepth(b)
    ensures CallsMade(a + b) == CallsMade(a) + CallsMade(b)
  {
    if b == [] {
      ConcatNothing(a);
    } else {
      DepthConcatenates(a, ButLast(b));
      Unsnoc2(a, b);
      Snoc(a + ButLast(b), Last(b));
    }
  }

  /** A call returns at most once. */
  lemma ReturnUnique(t: ExecutionTrace, p: nat, q: nat, r: nat)
    requires ReturnsAt(t, p, q) && ReturnsAt(t, p, r)
    ensures q == r
  {
    if q < r {
      NoLaterReturn(t, p, q, r);
    } else if r < q {
      NoLaterReturn(t, p, r, q);
    }
  }

  lemma NoLaterReturn(t: ExecutionTrace, p: nat, q: nat, r: nat)
    requires ReturnsAt(t, p, q) && q < r <= |t|
    ensures !CallsStayOpen(t[p + 1..r])
  {
    var k := q - p;
    assert t[p + 1..r][..k] == t[p + 1..q] + [t[q]];
    Snoc(t[p + 1..q], t[q]);
    assert CallDepth(t[p + 1..r][..k]) == -1;
  }

  lemma LabelDepthSnoc(t: ExecutionTrace, e: ExecutionEvent, name: string)
    ensures LabelDepth(t + [e], name)
         == LabelDepth(t, name) + if StartsSpan(e, name) then 1 else if EndsSpan(e, name) then -1 else 0
  {
    Snoc(t, e);
  }

  /** If no message in a stretch is about a label, the stretch is level for it. */
  lemma NoMessageAbout(t: ExecutionTrace, a: nat, b: nat, name: string)
    requires a <= b <= |t|
    requires forall i | a <= i < b :: !StartsSpan(t[i], name) && !EndsSpan(t[i], name)
    ensures LabelDepth(t[a..b], name) == 0 && LabelStaysOpen(t[a..b], name)
  {
    LevelBetween(t, a, b, name);
    forall k | 0 <= k <= b - a ensures LabelDepth(t[a..b][..k], name) == 0 {
      LevelBetween(t, a, a + k, name);
      assert t[a..b][..k] == t[a..a + k];
    }
  }

  lemma {:induction false} LevelBetween(t: ExecutionTrace, a: nat, b: nat, name: string)
    requires a <= b <= |t|
    requires forall i | a <= i < b :: !StartsSpan(t[i], name) && !EndsSpan(t[i], name)
    ensures LabelDepth(t[a..b], name) == 0
  {
    if a < b {
      LevelBetween(t, a, b - 1, name);
      assert t[a..b] == t[a..b - 1] + [t[b - 1]];
      LabelDepthSnoc(t[a..b - 1], t[b - 1], name);
    }
  }
}
