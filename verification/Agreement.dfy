/** The analysis and the conversion read the same trace: gas rolls up along the tree of invocations. */
module Agreement {
  import opened Wrappers
  import opened Sequences
  import opened GasModel
  import opened Trace
  import opened Script
  import opened Measures
  import opened Machine
  import opened Runs
  import opened Invocation
  import opened CallTree
  import opened SpanIds

  /** The spans opened by calls, in the order they are opened. */
  ghost function CallSpans(s: seq<Role>): (spans: seq<SpanValue>)
    ensures |spans| == |CallIndices(s)|
  {
    seq(|CallIndices(s)|, k requires 0 <= k < |CallIndices(s)| => CallSpan(s, k))
  }

  /** `spans` are the call spans of `s`; stated so that a proof about `spans` need not look at how they are measured. */
  ghost predicate AreCallSpans(s: seq<Role>, spans: seq<SpanValue>) {
    |spans| == |CallIndices(s)| && forall k {:trigger CallSpan(s, k)} | 0 <= k < |spans| :: spans[k] == CallSpan(s, k)
  }

  ghost function CallSpan(s: seq<Role>, k: nat): SpanValue
    requires k < |CallIndices(s)|
  {
    CallIndicesAreCalls(s, k);
    SpanOf(s, CallIndices(s)[k])
  }

  /** The totals of the roots of a forest whose nodes are numbered in pre-order from `k`. */
  ghost function RootTotals(spans: seq<SpanValue>, k: nat, xs: seq<InvocationTrace>): Ledger
    requires k + SizeAll(xs) <= |spans|
    decreases xs
  {
    if xs == [] then EMPTY_LEDGER else
    SizeFirst(xs);
    spans[k].total.Merge(RootTotals(spans, k + Size(xs[0]), xs[1..]))
  }

  /** The total of span `n`, which stands for `node`, is its own gas plus the totals of the node's callees. */
  ghost predicate NodeAdds(spans: seq<SpanValue>, n: nat, node: InvocationTrace) {
    && n + 1 + SizeAll(node.subinvocations) <= |spans|
    && spans[n].total == spans[n].own.Merge(RootTotals(spans, n + 1, node.subinvocations))
  }

  /** The j-th node of a forest numbered in pre-order from `k` adds up. */
  ghost predicate NodeAddsAt(spans: seq<SpanValue>, k: nat, xs: seq<InvocationTrace>, j: nat)
    requires j < SizeAll(xs)
  {
    NodeAdds(spans, k + j, Node(xs, j))
  }

  /** Every node of the forest adds up, by name and in both dimensions. */
  ghost predicate RollsUp(spans: seq<SpanValue>, k: nat, xs: seq<InvocationTrace>) {
    forall j | 0 <= j < SizeAll(xs) :: NodeAddsAt(spans, k, xs, j)
  }

  /** A node may be counted from another start. */
  lemma {:induction false} Renumber(spans: seq<SpanValue>, k: nat, xs: seq<InvocationTrace>, j: nat,
                 l: nat, ys: seq<InvocationTrace>, i: nat)
    requires j < SizeAll(xs) && i < SizeAll(ys) && k + j == l + i && Node(xs, j) == Node(ys, i)
    requires RollsUp(spans, l, ys)
    ensures NodeAddsAt(spans, k, xs, j)
  {
    assert NodeAddsAt(spans, l, ys, i);
  }

  lemma FirstNode(spans: seq<SpanValue>, k: nat, xs: seq<InvocationTrace>)
    requires SizeAll(xs) > 0 && NodeAdds(spans, k, Node(xs, 0))
    ensures NodeAddsAt(spans, k, xs, 0)
  {
  }

  lemma {:induction false} RollsUpTree(spans: seq<SpanValue>, k: nat, xs: seq<InvocationTrace>)
    requires xs != [] && NodeAdds(spans, k, xs[0])
    requires RollsUp(spans, k + 1, xs[0].subinvocations) && RollsUp(spans, k + Size(xs[0]), xs[1..])
    ensures RollsUp(spans, k, xs)
  {
    forall j | 0 <= j < SizeAll(xs) ensures NodeAddsAt(spans, k, xs, j) {
      NodeCases(xs, j);
      if j == 0 {
        FirstNode(spans, k, xs);
      } else if j < Size(xs[0]) {
        Renumber(spans, k, xs, j, k + 1, xs[0].subinvocations, j - 1);
      } else {
        Renumber(spans, k, xs, j, k + Size(xs[0]), xs[1..], j - Size(xs[0]));
      }
    }
  }

  /** A stretch in which every call returns, with `inner` the gas charged inside those calls. */
  ghost predicate Splits(w: seq<Role>, inner: Ledger) {
    && Net(Calls, w) == 0 && StaysOpen(Calls, w)
    && Tally(w) == Tally(Direct(w)).Merge(inner)
  }

  lemma {:induction false} MergeMiddle(a: Ledger, b: Ledger, c: Ledger, d: Ledger)
    ensures a.Merge(b).Merge(c.Merge(d)) == a.Merge(c).Merge(b.Merge(d))
  {
    MergeAssociates(a, b, c.Merge(d));
    MergeAssociates(b, c, d);
    MergeCommutes(b, c);
    MergeAssociates(c, b, d);
    MergeAssociates(a, c, b.Merge(d));
  }

  lemma DirectTallyConcat(u: seq<Role>, v: seq<Role>)
    requires Net(Calls, u) == 0
    ensures Tally(Direct(u + v)) == Tally(Direct(u)).Merge(Tally(Direct(v)))
  {
    DirectConcat(u, v);
    TallyConcat(Direct(u), Direct(v));
  }

  lemma SplitsConcatGas(u: seq<Role>, a: Ledger, v: seq<Role>, b: Ledger, w: seq<Role>)
    requires Splits(u, a) && Splits(v, b) && w == u + v
    ensures Tally(w) == Tally(Direct(w)).Merge(a.Merge(b))
  {
    TallyConcat(u, v);
    DirectTallyConcat(u, v);
    MergeMiddle(Tally(Direct(u)), a, Tally(Direct(v)), b);
  }

  lemma SplitsConcat(u: seq<Role>, a: Ledger, v: seq<Role>, b: Ledger, w: seq<Role>)
    requires Splits(u, a) && Splits(v, b) && w == u + v
    ensures Splits(w, a.Merge(b))
  {
    assert Net(Calls, w) == 0 && StaysOpen(Calls, w) by {
      NetConcat(Calls, u, v);
      StaysOpenConcat(Calls, u, v);
    }
    SplitsConcatGas(u, a, v, b, w);
  }

  lemma SplitsWithoutCalls(w: seq<Role>)
    requires CallFree(w)
    ensures Splits(w, EMPTY_LEDGER)
  {
    CallFreeIsDirect(w);
    DirectAndNested(w);
  }

  lemma SplitsCall(pre: seq<Role>, open: Role, body: seq<Role>, v: seq<Role>)
    requires CallFree(pre) && OpensCall(open) && StaysOpen(Calls, body) && Net(Calls, body) == 0
    requires v == pre + [open] + body
    ensures Splits(v + [Close(Calls)], Tally(body))
  {
    SplitsWithoutCalls(pre);
    MergeEmpty(Tally(Direct(pre)));
    RunningCallTally(pre, open, body, v);
    RunningCallDirect(pre, open, body, v);
    FinishedCall(v);
  }

  /** The span of the call opened after `a`, whose body is followed by its return. */
  lemma {:induction false} SpanOfCall(s: seq<Role>, a: seq<Role>, open: Role, body: seq<Role>, y: seq<Role>)
    requires OpensCall(open) && s == a + [open] + (body + [Close(Calls)] + y)
    requires StaysOpen(Calls, body) && Net(Calls, body) == 0
    ensures var k := |CallIndices(a)|;
            k < |CallIndices(s)| && CallSpan(s, k).own == Tally(Direct(body)) && CallSpan(s, k).total == Tally(body)
  {
    var k := |CallIndices(a)|;
    CallOpenedAt(s, a, open, body + [Close(Calls)] + y);
    CallIndicesAreCalls(s, k);
    CallMeasure(IdOf(s, CallIndices(s)[k]), body, y);
  }

  /** One tree in front of a forest, given what holds for its subtrees and for the rest of the forest. */
  lemma {:induction false} TreeStep(spans: seq<SpanValue>, k: nat, xs: seq<InvocationTrace>,
                 body: seq<Role>, rest: seq<Role>, w: seq<Role>)
    requires xs != [] && k + 1 + SizeAll(xs[0].subinvocations) + SizeAll(xs[1..]) <= |spans|
    requires spans[k].own == Tally(Direct(body)) && spans[k].total == Tally(body)
    requires Splits(body, RootTotals(spans, k + 1, xs[0].subinvocations))
    requires RollsUp(spans, k + 1, xs[0].subinvocations) && RollsUp(spans, k + Size(xs[0]), xs[1..])
    requires Splits(rest, RootTotals(spans, k + Size(xs[0]), xs[1..]))
    requires forall inner | Splits(rest, inner) :: Splits(w, Tally(body).Merge(inner))
    ensures k + SizeAll(xs) <= |spans| && RollsUp(spans, k, xs)
    ensures Splits(w, RootTotals(spans, k, xs))
  {
    SizeFirst(xs);
    RollsUpTree(spans, k, xs);
  }

  lemma RolesOfPieces(pre: ExecutionTrace, call: ExecutionEvent, body: ExecutionTrace, ret: ExecutionEvent,
                      rest: ExecutionTrace)
    ensures Roles(pre + [call] + body + [ret] + rest)
         == Roles(pre) + [RoleOf(call)] + Roles(body) + [RoleOf(ret)] + Roles(rest)
  {
  }

  lemma Regroup(s: seq<Role>, a: seq<Role>, pre: seq<Role>, open: Role, body: seq<Role>, close: Role,
                rest: seq<Role>, b: seq<Role>)
    requires s == a + (pre + [open] + body + [close] + rest) + b
    ensures s == (a + pre + [open]) + body + ([close] + rest + b)
    ensures s == (a + pre + [open] + body + [close]) + rest + b
    ensures s == (a + pre) + [open] + (body + [close] + (rest + b))
  {
  }

  lemma CallCounts(a: seq<Role>, pre: seq<Role>, open: Role, body: seq<Role>)
    requires CallFree(pre) && OpensCall(open)
    ensures |CallIndices(a + pre)| == |CallIndices(a)|
    ensures |CallIndices(a + pre + [open])| == |CallIndices(a)| + 1
    ensures |CallIndices(a + pre + [open] + body + [Close(Calls)])| == |CallIndices(a)| + 1 + |CallIndices(body)|
  {
    CallCountConcat(a + pre + [open], body);
    CallCountConcat(a, pre);
    CallFreeIsDirect(pre);
    CallIndicesSnoc(a + pre, open);
    CallIndicesSnoc(a + pre + [open] + body, Close(Calls));
  }

  lemma SplitsAround(pre: seq<Role>, open: Role, body: seq<Role>, rest: seq<Role>, w: seq<Role>)
    requires CallFree(pre) && OpensCall(open) && StaysOpen(Calls, body) && Net(Calls, body) == 0
    requires w == pre + [open] + body + [Close(Calls)] + rest
    ensures forall inner | Splits(rest, inner) :: Splits(w, Tally(body).Merge(inner))
  {
    var u := pre + [open] + body + [Close(Calls)];
    SplitsCall(pre, open, body, pre + [open] + body);
    forall inner | Splits(rest, inner) ensures Splits(w, Tally(body).Merge(inner)) {
      SplitsConcat(u, Tally(body), rest, inner, w);
    }
  }

  /** The first tree of a forest: its call, the stretch in which its callees run, and the stretch after it. */
  lemma {:induction false} FirstTree(s: seq<Role>, spans: seq<SpanValue>, a: seq<Role>, e: ExecutionTrace,
        b: seq<Role>, xs: seq<InvocationTrace>)
    returns (body: ExecutionTrace, rest: ExecutionTrace, a1: seq<Role>, b1: seq<Role>, a2: seq<Role>)
    requires s == a + Roles(e) + b && AreCallSpans(s, spans) && xs != [] && Brackets(e) == PrintAll(xs)
    ensures Brackets(body) == PrintAll(xs[0].subinvocations) && Brackets(rest) == PrintAll(xs[1..])
    ensures s == a1 + Roles(body) + b1 && s == a2 + Roles(rest) + b
    ensures |CallIndices(a1)| == |CallIndices(a)| + 1 && |CallIndices(a2)| == |CallIndices(a)| + Size(xs[0])
    ensures |CallIndices(a)| < |spans|
    ensures spans[|CallIndices(a)|].own == Tally(Direct(Roles(body)))
    ensures spans[|CallIndices(a)|].total == Tally(Roles(body))
    ensures forall inner | Splits(Roles(rest), inner) :: Splits(Roles(e), Tally(Roles(body)).Merge(inner))
  {
    var pre, call, ret;
    pre, call, body, ret, rest := SplitFirstTree(e, xs[0], xs[1..]);
    var p, open, d, q := Roles(pre), RoleOf(call), Roles(body), Roles(rest);
    RolesOfPieces(pre, call, body, ret, rest);
    assert OpensCall(open) && RoleOf(ret) == Close(Calls);
    NoBracketsNoCalls(pre);
    Regroup(s, a, p, open, d, Close(Calls), q, b);
    CallCounts(a, p, open, d);
    CallPerNode(body, xs[0].subinvocations);
    CallsReturn(body, xs[0].subinvocations);
    SpanOfCall(s, a + p, open, d, q + b);
    SplitsAround(p, open, d, q, Roles(e));
    a1, b1, a2 := a + p + [open], [Close(Calls)] + q + b, a + p + [open] + d + [Close(Calls)];
  }

  lemma NodesInRange(s: seq<Role>, a: seq<Role>, e: ExecutionTrace, b: seq<Role>, xs: seq<InvocationTrace>)
    requires s == a + Roles(e) + b && Brackets(e) == PrintAll(xs)
    ensures |CallIndices(a)| + SizeAll(xs) <= |CallIndices(s)|
  {
    CallPerNode(e, xs);
    CallCountConcat(a, Roles(e));
    CallCountConcat(a + Roles(e), b);
  }

  /** Gas rolls up along every forest of calls printed by a stretch of a script. */
  lemma {:induction false} SegmentRollsUp(s: seq<Role>, spans: seq<SpanValue>, a: seq<Role>, k: nat,
                                          e: ExecutionTrace, b: seq<Role>, xs: seq<InvocationTrace>)
    requires s == a + Roles(e) + b && Brackets(e) == PrintAll(xs)
    requires AreCallSpans(s, spans) && k == |CallIndices(a)|
    ensures k + SizeAll(xs) <= |spans|
    ensures RollsUp(spans, k, xs) && Splits(Roles(e), RootTotals(spans, k, xs))
    decreases xs, 1
  {
    NodesInRange(s, a, e, b, xs);
    if xs == [] {
      NoBracketsNoCalls(e);
      SplitsWithoutCalls(Roles(e));
    } else {
      var body, rest, a1, b1, a2 := FirstTree(s, spans, a, e, b, xs);
      assert spans[k].own == Tally(Direct(Roles(body))) && spans[k].total == Tally(Roles(body));
      CalleesRollUp(s, spans, k, xs, body, a1, b1);
      OthersRollUp(s, spans, k, xs, rest, a2, b);
      TreeStep(spans, k, xs, Roles(body), Roles(rest), Roles(e));
    }
  }

  lemma {:induction false} CalleesRollUp(s: seq<Role>, spans: seq<SpanValue>, k: nat, xs: seq<InvocationTrace>,
                                         body: ExecutionTrace, a: seq<Role>, b: seq<Role>)
    requires xs != [] && AreCallSpans(s, spans) && |CallIndices(a)| == k + 1
    requires s == a + Roles(body) + b && Brackets(body) == PrintAll(xs[0].subinvocations)
    ensures k + 1 + SizeAll(xs[0].subinvocations) <= |spans|
    ensures RollsUp(spans, k + 1, xs[0].subinvocations)
    ensures Splits(Roles(body), RootTotals(spans, k + 1, xs[0].subinvocations))
    decreases xs, 0
  {
    SegmentRollsUp(s, spans, a, k + 1, body, b, xs[0].subinvocations);
  }

  lemma {:induction false} OthersRollUp(s: seq<Role>, spans: seq<SpanValue>, k: nat, xs: seq<InvocationTrace>,
                                        rest: ExecutionTrace, a: seq<Role>, b: seq<Role>)
    requires xs != [] && AreCallSpans(s, spans) && |CallIndices(a)| == k + Size(xs[0])
    requires s == a + Roles(rest) + b && Brackets(rest) == PrintAll(xs[1..])
    ensures k + Size(xs[0]) + SizeAll(xs[1..]) <= |spans|
    ensures RollsUp(spans, k + Size(xs[0]), xs[1..])
    ensures Splits(Roles(rest), RootTotals(spans, k + Size(xs[0]), xs[1..]))
    decreases xs, 0
  {
    SegmentRollsUp(s, spans, a, k + Size(xs[0]), rest, b, xs[1..]);
  }

  // ---------- The main results ----------

  lemma CallSpansAre(s: seq<Role>)
    ensures AreCallSpans(s, CallSpans(s))
  {
  }

  lemma FullScriptCalls(t: ExecutionTrace, xs: seq<InvocationTrace>)
    requires Brackets(t) == PrintAll(xs)
    ensures |CallIndices(FullScript(t))| == 1 + SizeAll(xs)
  {
    CallPerNode(t, xs);
    CallIndicesSnoc([], ROOT_OPEN);
    ConcatNothing([ROOT_OPEN]);
    CallCountConcat([ROOT_OPEN], Roles(t));
    CallIndicesSnoc([ROOT_OPEN] + Roles(t), ROOT_CLOSE);
  }

  lemma {:induction false} ForestRollsUp(t: ExecutionTrace, xs: seq<InvocationTrace>, spans: seq<SpanValue>)
    requires Brackets(t) == PrintAll(xs) && AreCallSpans(FullScript(t), spans)
    ensures |spans| == 1 + SizeAll(xs) && RollsUp(spans, 1, xs) && Splits(Roles(t), RootTotals(spans, 1, xs))
  {
    FullScriptCalls(t, xs);
    CallIndicesSnoc([], ROOT_OPEN);
    ConcatNothing([ROOT_OPEN]);
    SegmentRollsUp(FullScript(t), spans, [ROOT_OPEN], 1, t, [ROOT_CLOSE], xs);
  }

  /**
   For every trace that prints a forest of invocations, the analysis has Root and one call span per
   invocation, in pre-order, and each total is the span's own gas plus the totals of the spans of the
   invocations it made: by charge name, in both dimensions, whatever named spans there are.
   */
  lemma {:induction false} GasFollowsTheTree(t: ExecutionTrace, xs: seq<InvocationTrace>, spans: seq<SpanValue>)
    requires Brackets(t) == PrintAll(xs) && AreCallSpans(FullScript(t), spans)
    ensures |spans| == 1 + SizeAll(xs)
    ensures spans[0].total == spans[0].own.Merge(RootTotals(spans, 1, xs))
    ensures RollsUp(spans, 1, xs)
  {
    ForestRollsUp(t, xs, spans);
    RootSpan(t, xs);
  }

  lemma {:induction false} RootSpan(t: ExecutionTrace, xs: seq<InvocationTrace>)
    requires Brackets(t) == PrintAll(xs)
    ensures |CallIndices(FullScript(t))| > 0
    ensures CallSpan(FullScript(t), 0).own == Tally(Direct(Roles(t)))
    ensures CallSpan(FullScript(t), 0).total == Tally(Roles(t))
  {
    CallsReturn(t, xs);
    ConcatNothing([ROOT_OPEN]);
    ConcatNothing(Roles(t) + [ROOT_CLOSE]);
    Associate([ROOT_OPEN], Roles(t), [ROOT_CLOSE]);
    SpanOfCall(FullScript(t), [], ROOT_OPEN, Roles(t), []);
  }

  lemma {:induction false} FullScriptTags(t: ExecutionTrace, s: seq<Role>)
    requires s == FullScript(t)
    ensures CallTags(s) == [ROOT_OPEN.tag] + EnterTags(Brackets(t))
  {
    var root := [ROOT_OPEN];
    CallTagsSnoc([], ROOT_OPEN);
    ConcatNothing(root);
    TraceTags(t, root);
    CallTagsSnoc(root + Roles(t), ROOT_CLOSE);
  }

  /** From the ids of the call spans after Root one reads caller, callee and method of the invocations, in pre-order. */
  lemma {:induction false} SpansAreInvocations(t: ExecutionTrace, xs: seq<InvocationTrace>, j: nat,
                                               spans: seq<SpanValue>)
    requires Brackets(t) == PrintAll(xs) && j < SizeAll(xs) && AreCallSpans(FullScript(t), spans)
    ensures |spans| == |CallIndices(FullScript(t))| == 1 + SizeAll(xs)
    ensures ReadId(spans[j + 1].id)
         == Some(CallName(CallIndices(FullScript(t))[j + 1], Node(xs, j).from, Node(xs, j).to, Node(xs, j).methodNum))
  {
    var s, node := FullScript(t), Node(xs, j);
    FullScriptCalls(t, xs);
    FullScriptTags(t, s);
    PrintedTags(xs);
    CallTagAt(s, j + 1);
    assert CallTags(s)[j + 1] == TagsOf(PreOrder(xs))[j] == TagOf(node);
    assert spans[j + 1] == CallSpan(s, j + 1);
    LaterCallIndex(s, j + 1);
    SpanIdReadsBack(CallIndices(s)[j + 1], node.from, node.to, node.methodNum, "");
  }

  lemma {:induction false} LaterCallIndex(s: seq<Role>, k: nat)
    requires 0 < k < |CallIndices(s)|
    ensures CallIndices(s)[k] > 0
  {
    var v, r := ButLast(s), Last(s);
    Unsnoc(s);
    CallIndicesSnoc(v, r);
    if k < |CallIndices(v)| {
      LaterCallIndex(v, k);
    } else {
      CallIndicesAreCalls(v, 0);
    }
  }

  /** Every trace whose calls and returns match prints a forest. */
  lemma {:induction false} CallForest(t: ExecutionTrace) returns (xs: seq<InvocationTrace>)
    requires Net(Calls, Roles(t)) == 0 && StaysOpen(Calls, Roles(t))
    ensures Brackets(t) == PrintAll(xs) && AllWithoutErrorNumbers(xs)
  {
    var call, ret := Call(0, "", 0, None, TokenAmount(0), 0, false), CallReturn(None, EXIT_OK);
    var wrapped := [call] + t + [ret];
    WrappedBrackets(call, t, ret);
    CallNetIsDepth(t);
    CallsNeverOverclosed(t);
    WrappedIsOneCall(BracketOf(call)[0], Brackets(t), BracketOf(ret)[0]);
    ConversionLanguage(wrapped);
    PrintAfterParse(wrapped);
    xs := Convert(wrapped).value.subinvocations;
    MiddleDetermined(Print(Convert(wrapped).value), PrintAll(xs), Brackets(t));
  }

  lemma WrappedBrackets(call: ExecutionEvent, t: ExecutionTrace, ret: ExecutionEvent)
    ensures Brackets([call] + t + [ret]) == BracketOf(call) + Brackets(t) + BracketOf(ret)
  {
    BracketsSnoc([], call);
    ConcatNothing([call]);
    ConcatNothing(BracketOf(call));
    BracketsConcat([call], t);
    BracketsSnoc([call] + t, ret);
  }

  lemma MiddleDetermined(all: seq<Bracket>, a: seq<Bracket>, b: seq<Bracket>)
    requires |all| >= 2 && all == [all[0]] + a + [all[|all| - 1]] && all == [all[0]] + b + [all[|all| - 1]]
    ensures a == b
  {
    assert all[1..|all| - 1] == a && all[1..|all| - 1] == b;
  }

  lemma WrappedIsOneCall(enter: Bracket, inner: seq<Bracket>, leave: Bracket)
    requires enter.Enter? && leave.Leave? && Depth(inner) == 0 && NeverNegative(inner)
    ensures IsOneCall([enter] + inner + [leave])
  {
    var all := [enter] + inner + [leave];
    DepthOne(enter);
    DepthOne(leave);
    DepthConcat([enter], inner);
    DepthConcat([enter] + inner, [leave]);
    forall k | 0 < k < |all| ensures Depth(all[..k]) > 0 {
      assert all[..k] == [enter] + inner[..k - 1];
      DepthConcat([enter], inner[..k - 1]);
    }
  }

  lemma TreeGas(t: ExecutionTrace, x: InvocationTrace, spans: seq<SpanValue>)
    requires Brackets(t) == PrintAll([x]) && AreCallSpans(FullScript(t), spans)
    ensures |spans| == 1 + Size(x) && spans[0].total == spans[0].own.Merge(spans[1].total)
    ensures RollsUp(spans, 1, [x])
  {
    GasFollowsTheTree(t, [x], spans);
    SizeFirst([x]);
    MergeEmpty(spans[1].total);
  }

  /**
   The two machines agree: whenever the conversion returns a tree and no span end is unmatched, the
   trace is well bracketed, so the analysis completes (if the gas fits), and its call spans after Root
   are the nodes of the tree, with gas rolling up along the tree.
   */
  lemma MachinesAgree(t: ExecutionTrace, x: InvocationTrace)
    requires Convert(t) == Success(x)
    requires forall name: string :: StaysOpen(Named(name), Roles(t))
    ensures WellBracketed(t) && Outcome(t) == Success(SpansOf(FullScript(t)))
    ensures Brackets(t) == PrintAll([x])
    ensures var spans := CallSpans(FullScript(t));
            && |spans| == 1 + Size(x) == 1 + |PreOrder([x])|
            && spans[0].total == spans[0].own.Merge(spans[1].total)
            && RollsUp(spans, 1, [x])
  {
    PrintAfterParse(t);
    assert [x][1..] == [];
    ConcatNothing(Print(x));
    CallsReturn(t, [x]);
    forall c: Key ensures StaysOpen(c, Roles(t)) {
      match c
      case Calls =>
      case Named(_) =>
    }
    AnalysisMeasures(t);
    CallSpansAre(FullScript(t));
    TreeGas(t, x, CallSpans(FullScript(t)));
  }
}
