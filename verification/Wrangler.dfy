/** The driver: per-sender sequence numbers and a buffer of execution traces, over an arbitrary bench. */
module Wrangler {
  import opened Sequences
  import opened Wrappers
  import opened Maps
  import opened GasModel
  import opened Trace
  import opened Invocation

  datatype Message = Message(
    from: Address, to: Address, sequence: U64, value: TokenAmount, methodNum: MethodNum, params: seq<bv8>,
    version: U64, gasLimit: U64, gasFeeCap: TokenAmount, gasPremium: TokenAmount)

  /** One call of the bench: a message, its claimed length and whether it is implicit. */
  datatype BenchCall = BenchCall(msg: Message, msgLength: nat, implicit: bool)

  /** The parts of the bench's result that the driver passes on. */
  datatype ExecutionResult =
    ExecutionResult(exitCode: ExitCode, returnData: seq<bv8>, message: string, trace: ExecutionTrace)

  datatype MessageResult = MessageResult(code: ExitCode, ret: seq<bv8>, message: string)

  /** An arbitrary bench: its reply to a call may depend on all earlier calls. */
  type Bench = seq<BenchCall> -> Result<ExecutionResult, string>

  /** An error returned by the bench, or the overflow of a sender's sequence number. */
  datatype Fault = VMError(message: string) | SequenceOverflow

  datatype Config = Config(version: U64, gasLimit: U64, gasFeeCap: TokenAmount, gasPremium: TokenAmount)

  datatype Request = Request(
    params: Option<IpldBlock>, from: Address, to: Address, methodNum: MethodNum, value: TokenAmount, implicit: bool)

  /** What the driver remembers, and what the bench has been asked. */
  datatype State = State(calls: seq<BenchCall>, sequences: map<Address, U64>, pending: seq<ExecutionTrace>) {
    function SequenceOf(a: Address): U64 {
      if a in sequences then sequences[a] else 0
    }
  }

  function CallFor(config: Config, st: State, req: Request): BenchCall {
    var params := if req.params.Some? then req.params.value.data else [];
    BenchCall(
      Message(req.from, req.to, st.SequenceOf(req.from), req.value, req.methodNum, params,
              config.version, config.gasLimit, config.gasFeeCap, config.gasPremium),
      0, req.implicit)
  }

  /** What the bench is asked: the request's message, with the limits of the driver. */
  predicate Asks(call: BenchCall, config: Config, req: Request) {
    && call.msg.from == req.from && call.msg.to == req.to && call.msg.value == req.value
    && call.msg.methodNum == req.methodNum && call.implicit == req.implicit && call.msgLength == 0
    && (req.params.Some? ==> call.msg.params == req.params.value.data)
    && (req.params.None? ==> call.msg.params == [])
    && call.msg.version == config.version && call.msg.gasLimit == config.gasLimit
    && call.msg.gasFeeCap == config.gasFeeCap && call.msg.gasPremium == config.gasPremium
  }

  /** What the caller is told of a success. */
  predicate PassesOn(r: MessageResult, res: ExecutionResult) {
    r.code == res.exitCode && r.ret == res.returnData && r.message == res.message
  }

  /** The state after an execution. */
  function Executed(bench: Bench, config: Config, st: State, req: Request): State {
    var asked := st.(calls := st.calls + [CallFor(config, st, req)]);
    var reply := bench(asked.calls);
    if reply.Failure? || st.SequenceOf(req.from) == U64_MAX then asked
    else asked.(sequences := st.sequences[req.from := st.SequenceOf(req.from) + 1],
                pending := st.pending + [reply.value.trace])
  }

  function Answer(bench: Bench, config: Config, st: State, req: Request): Result<MessageResult, Fault> {
    match bench(st.calls + [CallFor(config, st, req)])
    case Failure(message) => Failure(VMError(message))
    case Success(res) =>
      if st.SequenceOf(req.from) == U64_MAX then Failure(SequenceOverflow)
      else Success(MessageResult(res.exitCode, res.returnData, res.message))
  }

  /**
   One execution: the bench is asked once more, with the sender's current number. If it answers, the caller
   is told its exit code, return data and message, its trace is appended and the sender's number goes up by
   one, unless it cannot; otherwise the caller gets the bench's error and nothing but the call is recorded.
   */
  lemma ExecutionMeaning(bench: Bench, config: Config, st: State, req: Request, next: State,
                         r: Result<MessageResult, Fault>)
    requires next == Executed(bench, config, st, req) && r == Answer(bench, config, st, req)
    ensures next.calls != [] && ButLast(next.calls) == st.calls && Asks(Last(next.calls), config, req)
    ensures Last(next.calls).msg.sequence == st.SequenceOf(req.from)
    ensures r.Success? <==> bench(next.calls).Success? && st.SequenceOf(req.from) < 0xFFFF_FFFF_FFFF_FFFF
    ensures r.Success? ==> PassesOn(r.value, bench(next.calls).value)
    ensures r.Success? ==> next.pending == st.pending + [bench(next.calls).value.trace]
    ensures r.Success? ==> next.sequences == st.sequences[req.from := st.SequenceOf(req.from) + 1]
    ensures r.Failure? ==> next.pending == st.pending && next.sequences == st.sequences
    ensures bench(next.calls).Failure? ==> r == Failure(VMError(bench(next.calls).error))
    ensures r.Failure? && bench(next.calls).Success? ==> r.error == SequenceOverflow
  {
  }

  /** All trees of a sequence of traces, or the first failure. */
  function ConvertAll(traces: seq<ExecutionTrace>): Result<seq<InvocationTrace>, ConversionPanic> {
    if traces == [] then Success([]) else
    var init := ConvertAll(ButLast(traces));
    if init.Failure? then init else
    var last := Convert(Last(traces));
    if last.Failure? then Failure(last.error) else Success(init.value + [last.value])
  }

  class ExecutionWrangler {
    const bench: Bench
    const config: Config
    const computeMsgLength: bool
    const msgLength: nat := 0
    var calls: seq<BenchCall>
    var sequences: map<Address, U64>
    var executionResults: seq<ExecutionTrace>

    ghost function Value(): State
      reads this
    {
      State(calls, sequences, executionResults)
    }

    constructor (bench: Bench, config: Config, computeMsgLength: bool)
      ensures Value() == State([], map[], [])
      ensures this.bench == bench && this.config == config
    {
      this.bench, this.config, this.computeMsgLength := bench, config, computeMsgLength;
      calls, sequences, executionResults := [], map[], [];
    }

    /** A copy of the last pending trace, if any. */
    method PeekExecutionTrace() returns (r: Option<ExecutionTrace>)
      ensures r == if executionResults == [] then None else Some(Last(executionResults))
    {
      r := if executionResults == [] then None else Some(executionResults[|executionResults| - 1]);
    }

    method Execute(req: Request) returns (r: Result<MessageResult, Fault>)
      modifies this
      ensures Value() == Executed(bench, config, old(Value()), req)
      ensures r == Answer(bench, config, old(Value()), req)
      ensures r.Failure? ==> sequences == old(sequences) && executionResults == old(executionResults)
    {
      var rawParams := match req.params case Some(block) => block.data case None => [];
      var sequence := if req.from in sequences then sequences[req.from] else 0;
      var msg := Message(req.from, req.to, sequence, req.value, req.methodNum, rawParams,
                         config.version, config.gasLimit, config.gasFeeCap, config.gasPremium);
      var length := if computeMsgLength then msgLength else 0;
      calls := calls + [BenchCall(msg, length, req.implicit)];
      var reply := bench(calls);
      if reply.Success? {
        if sequence == U64_MAX {
          return Failure(SequenceOverflow);
        }
        sequences := sequences[req.from := sequence + 1];
      }
      match reply {
        case Success(res) =>
          executionResults := executionResults + [res.trace];
          r := Success(MessageResult(res.exitCode, res.returnData, res.message));
        case Failure(e) =>
          r := Failure(VMError(e));
      }
    }

    method ExecuteMessage(from: Address, to: Address, value: TokenAmount, methodNum: MethodNum,
                          params: Option<IpldBlock>) returns (r: Result<MessageResult, Fault>)
      modifies this
      ensures Value() == Executed(bench, config, old(Value()), Request(params, from, to, methodNum, value, false))
      ensures r == Answer(bench, config, old(Value()), Request(params, from, to, methodNum, value, false))
      ensures calls != [] && ButLast(calls) == old(calls) && !Last(calls).implicit
      ensures var msg := Last(calls).msg;
              && msg.from == from && msg.to == to && msg.value == value && msg.methodNum == methodNum
              && msg.params == if params.Some? then params.value.data else []
    {
      r := Execute(Request(params, from, to, methodNum, value, false));
      ExecutionMeaning(bench, config, old(Value()), Request(params, from, to, methodNum, value, false), Value(), r);
    }

    method ExecuteMessageImplicit(from: Address, to: Address, value: TokenAmount, methodNum: MethodNum,
                                  params: Option<IpldBlock>) returns (r: Result<MessageResult, Fault>)
      modifies this
      ensures Value() == Executed(bench, config, old(Value()), Request(params, from, to, methodNum, value, true))
      ensures r == Answer(bench, config, old(Value()), Request(params, from, to, methodNum, value, true))
      ensures calls != [] && ButLast(calls) == old(calls) && Last(calls).implicit
      ensures var msg := Last(calls).msg;
              && msg.from == from && msg.to == to && msg.value == value && msg.methodNum == methodNum
              && msg.params == if params.Some? then params.value.data else []
    {
      r := Execute(Request(params, from, to, methodNum, value, true));
      ExecutionMeaning(bench, config, old(Value()), Request(params, from, to, methodNum, value, true), Value(), r);
    }

    /** Takes the pending traces as trees. The buffer is emptied before the first conversion. */
    method TakeInvocations() returns (r: Result<seq<InvocationTrace>, ConversionPanic>)
      modifies this`executionResults
      ensures executionResults == [] && r == ConvertAll(old(executionResults))
    {
      var traces := executionResults;
      executionResults := [];
      var trees: seq<InvocationTrace> := [];
      for k := 0 to |traces|
        invariant executionResults == [] && ConvertAll(traces[..k]) == Success(trees)
      {
        Snoc(traces[..k], traces[k]);
        assert traces[..k + 1] == traces[..k] + [traces[k]];
        var tree := ToInvocation(traces[k]);
        if tree.Failure? {
          ConvertAllStuck(traces, k + 1);
          return Failure(tree.error);
        }
        trees := trees + [tree.value];
      }
      assert traces[..|traces|] == traces;
      r := Success(trees);
    }
  }

  lemma {:induction false} ConvertAllStuck(traces: seq<ExecutionTrace>, k: nat)
    requires k <= |traces| && ConvertAll(traces[..k]).Failure?
    ensures ConvertAll(traces) == ConvertAll(traces[..k])
  {
    if k == |traces| {
      assert traces[..k] == traces;
    } else {
      assert ButLast(traces)[..k] == traces[..k];
      ConvertAllStuck(ButLast(traces), k);
    }
  }

  /** Converting all traces succeeds exactly when each can be converted, and keeps their number and order. */
  lemma {:induction false} ConvertAllMeaning(traces: seq<ExecutionTrace>)
    ensures ConvertAll(traces).Success? <==> forall i | 0 <= i < |traces| :: Convert(traces[i]).Success?
    ensures ConvertAll(traces).Success? ==>
              |ConvertAll(traces).value| == |traces|
              && forall i | 0 <= i < |traces| :: Convert(traces[i]) == Success(ConvertAll(traces).value[i])
  {
    if traces != [] {
      ConvertAllMeaning(ButLast(traces));
      assert forall i | 0 <= i < |traces| - 1 :: traces[i] == ButLast(traces)[i];
      assert traces[|traces| - 1] == Last(traces);
    }
  }

  // ---------- Whole runs ----------

  datatype Operation = ExecuteOp(req: Request) | PeekOp | TakeOp

  /** A state together with all trees handed out so far. */
  datatype RunState = RunState(st: State, taken: seq<InvocationTrace>)

  /** One operation; None once the program has panicked. */
  function Perform(bench: Bench, config: Config, p: RunState, op: Operation): Option<RunState> {
    match op
    case ExecuteOp(req) =>
      if Answer(bench, config, p.st, req) == Failure(SequenceOverflow) then None
      else Some(p.(st := Executed(bench, config, p.st, req)))
    case PeekOp => Some(p)
    case TakeOp =>
      var trees := ConvertAll(p.st.pending);
      if trees.Failure? then None
      else Some(RunState(p.st.(pending := []), p.taken + trees.value))
  }

  function PerformAll(bench: Bench, config: Config, ops: seq<Operation>): Option<RunState> {
    if ops == [] then Some(RunState(State([], map[], []), [])) else
    var before := PerformAll(bench, config, ButLast(ops));
    if before.None? then None else Perform(bench, config, before.value, Last(ops))
  }

  /** The successful executions among the first calls, as the bench saw them. */
  datatype Done = Done(msg: Message, trace: ExecutionTrace)

  function Successes(bench: Bench, calls: seq<BenchCall>): seq<Done> {
    if calls == [] then [] else
    var before := Successes(bench, ButLast(calls));
    var reply := bench(calls);
    if reply.Success? then before + [Done(Last(calls).msg, reply.value.trace)] else before
  }

  function Traces(done: seq<Done>): seq<ExecutionTrace> {
    seq(|done|, i requires 0 <= i < |done| => done[i].trace)
  }

  /** How many of the executions a sender made. */
  function CountFrom(done: seq<Done>, a: Address): nat {
    if done == [] then 0 else CountFrom(ButLast(done), a) + if Last(done).msg.from == a then 1 else 0
  }

  /** What every run keeps. */
  ghost predicate Accounted(bench: Bench, p: RunState) {
    var done := Successes(bench, p.st.calls);
    && TracesAccounted(p, done)
    && (forall a :: p.st.SequenceOf(a) == CountFrom(done, a))
    && SumValues(p.st.sequences) == |done|
    && CallsNumbered(bench, p.st.calls)
  }

  /** The trees taken and the pending traces are, in order, the traces of all successful executions. */
  ghost predicate TracesAccounted(p: RunState, done: seq<Done>) {
    && |p.taken| + |p.st.pending| == |done|
    && (forall i | 0 <= i < |p.taken| :: Convert(done[i].trace) == Success(p.taken[i]))
    && (forall i | 0 <= i < |p.st.pending| :: p.st.pending[i] == done[|p.taken| + i].trace)
  }

  /** Every message, even one that fails, carries the number of earlier successes of its sender. */
  ghost predicate CallsNumbered(bench: Bench, calls: seq<BenchCall>) {
    forall i | 0 <= i < |calls| ::
      calls[i].msg.sequence == CountFrom(Successes(bench, calls[..i]), calls[i].msg.from)
  }

  lemma SuccessesSnoc(bench: Bench, calls: seq<BenchCall>, call: BenchCall)
    ensures Successes(bench, calls + [call])
         == (if bench(calls + [call]).Success?
             then Successes(bench, calls) + [Done(call.msg, bench(calls + [call]).value.trace)]
             else Successes(bench, calls))
  {
    Snoc(calls, call);
  }

  lemma CountSnoc(done: seq<Done>, d: Done, a: Address)
    ensures CountFrom(done + [d], a) == CountFrom(done, a) + if d.msg.from == a then 1 else 0
  {
    Snoc(done, d);
  }

  lemma {:induction false} NumberedSnoc(bench: Bench, calls: seq<BenchCall>, call: BenchCall)
    requires CallsNumbered(bench, calls)
    requires call.msg.sequence == CountFrom(Successes(bench, calls), call.msg.from)
    ensures CallsNumbered(bench, calls + [call])
  {
    var all := calls + [call];
    Snoc(calls, call);
    forall i | 0 <= i < |all|
      ensures all[i].msg.sequence == CountFrom(Successes(bench, all[..i]), all[i].msg.from)
    {
      if i < |calls| {
        assert all[..i] == calls[..i];
      } else {
        assert all[..i] == calls;
      }
    }
  }

  lemma SuccessTraces(p: RunState, done: seq<Done>, d: Done, next: RunState)
    requires TracesAccounted(p, done)
    requires next.taken == p.taken && next.st.pending == p.st.pending + [d.trace]
    ensures TracesAccounted(next, done + [d])
  {
  }

  lemma SuccessCounts(st: State, done: seq<Done>, d: Done, next: State)
    requires forall a :: st.SequenceOf(a) == CountFrom(done, a)
    requires d.msg.sequence == st.SequenceOf(d.msg.from) < U64_MAX
    requires next.sequences == st.sequences[d.msg.from := d.msg.sequence + 1]
    ensures forall a :: next.SequenceOf(a) == CountFrom(done + [d], a)
    ensures SumValues(next.sequences) == SumValues(st.sequences) + 1
  {
    forall a: Address ensures next.SequenceOf(a) == CountFrom(done + [d], a) {
      CountSnoc(done, d, a);
    }
    SumUpdate(st.sequences, d.msg.from, d.msg.sequence + 1);
  }

  lemma {:induction false} SuccessKeeps(bench: Bench, p: RunState, call: BenchCall, trace: ExecutionTrace,
                                        next: RunState)
    requires Accounted(bench, p) && call.msg.sequence == p.st.SequenceOf(call.msg.from) < U64_MAX
    requires bench(p.st.calls + [call]).Success? && bench(p.st.calls + [call]).value.trace == trace
    requires next.taken == p.taken
    requires next.st == State(p.st.calls + [call],
                              p.st.sequences[call.msg.from := call.msg.sequence + 1], p.st.pending + [trace])
    ensures Accounted(bench, next)
  {
    var done, d := Successes(bench, p.st.calls), Done(call.msg, trace);
    NumberedSnoc(bench, p.st.calls, call);
    SuccessesSnoc(bench, p.st.calls, call);
    SuccessTraces(p, done, d, next);
    SuccessCounts(p.st, done, d, next.st);
  }

  lemma {:induction false} FailureKeeps(bench: Bench, p: RunState, call: BenchCall, next: RunState)
    requires Accounted(bench, p) && call.msg.sequence == p.st.SequenceOf(call.msg.from)
    requires bench(p.st.calls + [call]).Failure?
    requires next == p.(st := p.st.(calls := p.st.calls + [call]))
    ensures Accounted(bench, next)
  {
    NumberedSnoc(bench, p.st.calls, call);
    SuccessesSnoc(bench, p.st.calls, call);
  }

  lemma ExecuteKeeps(bench: Bench, config: Config, p: RunState, req: Request)
    requires Accounted(bench, p) && Answer(bench, config, p.st, req) != Failure(SequenceOverflow)
    ensures Accounted(bench, p.(st := Executed(bench, config, p.st, req)))
  {
    var call := CallFor(config, p.st, req);
    var next := p.(st := Executed(bench, config, p.st, req));
    var reply := bench(p.st.calls + [call]);
    if reply.Success? {
      SuccessKeeps(bench, p, call, reply.value.trace, next);
    } else {
      FailureKeeps(bench, p, call, next);
    }
  }

  lemma TakeKeeps(bench: Bench, p: RunState)
    requires Accounted(bench, p) && ConvertAll(p.st.pending).Success?
    ensures Accounted(bench, RunState(p.st.(pending := []), p.taken + ConvertAll(p.st.pending).value))
  {
    ConvertAllMeaning(p.st.pending);
  }

  /**
   Over any run against any bench: no trace is lost, duplicated or reordered, and every sender's
   sequence number counts its successful executions, explicit and implicit alike.
   */
  lemma {:induction false} RunsAreAccounted(bench: Bench, config: Config, ops: seq<Operation>)
    requires PerformAll(bench, config, ops).Some?
    ensures Accounted(bench, PerformAll(bench, config, ops).value)
  {
    if ops != [] {
      RunsAreAccounted(bench, config, ButLast(ops));
      var p := PerformAll(bench, config, ButLast(ops)).value;
      match Last(ops)
      case ExecuteOp(req) => ExecuteKeeps(bench, config, p, req);
      case PeekOp =>
      case TakeOp => TakeKeeps(bench, p);
    }
  }

  /** The executions among the operations, in order. */
  function Requests(ops: seq<Operation>): seq<Request> {
    if ops == [] then [] else
    Requests(ButLast(ops)) + match Last(ops)
                             case ExecuteOp(req) => [req]
                             case PeekOp => []
                             case TakeOp => []
  }

  /** The calls are the requests, in order. */
  ghost predicate AsRequested(calls: seq<BenchCall>, config: Config, reqs: seq<Request>) {
    |calls| == |reqs| && forall i | 0 <= i < |calls| :: Asks(calls[i], config, reqs[i])
  }

  lemma OneMoreRequested(calls: seq<BenchCall>, config: Config, reqs: seq<Request>, call: BenchCall, req: Request)
    requires AsRequested(calls, config, reqs) && Asks(call, config, req)
    ensures AsRequested(calls + [call], config, reqs + [req])
  {
  }

  /** Over any run, the bench is asked for exactly the requested executions, in order, each as requested. */
  lemma {:induction false} CallsAreRequests(bench: Bench, config: Config, ops: seq<Operation>)
    requires PerformAll(bench, config, ops).Some?
    ensures AsRequested(PerformAll(bench, config, ops).value.st.calls, config, Requests(ops))
  {
    if ops != [] {
      CallsAreRequests(bench, config, ButLast(ops));
      var calls := PerformAll(bench, config, ButLast(ops)).value.st.calls;
      match Last(ops)
      case ExecuteOp(req) =>
        var call := Last(PerformAll(bench, config, ops).value.st.calls);
        OneMoreRequested(calls, config, Requests(ButLast(ops)), call, req);
      case PeekOp => ConcatNothing(Requests(ButLast(ops)));
      case TakeOp => ConcatNothing(Requests(ButLast(ops)));
    }
  }

  /**
   The next operation of a run panics exactly if it is an execution that succeeds for a sender who already
   has 2^64 - 1 successes, or takes a pending trace that is not one call.
   */
  lemma {:induction false} WhenRunsPanic(bench: Bench, config: Config, ops: seq<Operation>, op: Operation)
    requires PerformAll(bench, config, ops).Some?
    ensures var p := PerformAll(bench, config, ops).value;
            PerformAll(bench, config, ops + [op]).None? <==>
              match op
              case ExecuteOp(req) =>
                bench(Executed(bench, config, p.st, req).calls).Success?
                && CountFrom(Successes(bench, p.st.calls), req.from) == 0xFFFF_FFFF_FFFF_FFFF
              case PeekOp => false
              case TakeOp => exists i :: 0 <= i < |p.st.pending| && !IsOneCall(Brackets(p.st.pending[i]))
  {
    Snoc(ops, op);
    RunsAreAccounted(bench, config, ops);
    TakeSucceeds(bench, config, PerformAll(bench, config, ops).value);
  }

  /** A sender's successful messages carry 0, 1, 2, ... without gaps. */
  lemma {:induction false} SuccessesNumbered(bench: Bench, calls: seq<BenchCall>, i: nat)
    requires CallsNumbered(bench, calls) && i < |Successes(bench, calls)|
    ensures var done := Successes(bench, calls);
            done[i].msg.sequence == CountFrom(done[..i], done[i].msg.from)
  {
    var init, last := ButLast(calls), Last(calls);
    Unsnoc(calls);
    SuccessesSnoc(bench, init, last);
    var before, done := Successes(bench, init), Successes(bench, calls);
    if i < |before| {
      assert forall k | 0 <= k < |init| :: init[k] == calls[k] && init[..k] == calls[..k];
      SuccessesNumbered(bench, init, i);
      assert done[..i] == before[..i];
    } else {
      assert calls[..|init|] == init;
      assert done[..i] == before;
    }
  }

  /** The numbers of successes per sender add up to the trees taken and the traces pending. */
  lemma SequencesAddUp(bench: Bench, config: Config, ops: seq<Operation>)
    requires PerformAll(bench, config, ops).Some?
    ensures var p := PerformAll(bench, config, ops).value;
            SumValues(p.st.sequences) == |p.taken| + |p.st.pending|
  {
    RunsAreAccounted(bench, config, ops);
  }

  lemma SplitConversion(p: RunState, done: seq<Done>)
    requires TracesAccounted(p, done) && ConvertAll(Traces(done)).Success?
    ensures var pending := ConvertAll(p.st.pending);
            pending.Success? && ConvertAll(Traces(done)) == Success(p.taken + pending.value)
  {
    var traces, pending := Traces(done), p.st.pending;
    ConvertAllMeaning(traces);
    ConvertAllMeaning(pending);
    forall i | 0 <= i < |pending| ensures Convert(pending[i]).Success? {
      assert traces[|p.taken| + i] == pending[i];
    }
    var all, split := ConvertAll(traces).value, p.taken + ConvertAll(pending).value;
    forall i | 0 <= i < |done| ensures all[i] == split[i] {
      assert traces[i] == done[i].trace;
      assert Convert(traces[i]) == Success(all[i]);
    }
    assert |all| == |split|;
    assert all == split;
  }

  /** When every successful trace can be converted, taken trees and pending traces are all of them, in order. */
  lemma NothingLost(bench: Bench, config: Config, ops: seq<Operation>)
    requires PerformAll(bench, config, ops).Some?
    requires ConvertAll(Traces(Successes(bench, PerformAll(bench, config, ops).value.st.calls))).Success?
    ensures var p := PerformAll(bench, config, ops).value;
            var pending := ConvertAll(p.st.pending);
            pending.Success? &&
            ConvertAll(Traces(Successes(bench, p.st.calls))) == Success(p.taken + pending.value)
  {
    RunsAreAccounted(bench, config, ops);
    var p := PerformAll(bench, config, ops).value;
    SplitConversion(p, Successes(bench, p.st.calls));
  }

  /** A take hands out the pending traces exactly when each of them is one call; otherwise the program panics. */
  lemma TakeSucceeds(bench: Bench, config: Config, p: RunState)
    ensures Perform(bench, config, p, TakeOp).Some?
       <==> forall i | 0 <= i < |p.st.pending| :: IsOneCall(Brackets(p.st.pending[i]))
  {
    ConvertAllMeaning(p.st.pending);
    forall i | 0 <= i < |p.st.pending|
      ensures Convert(p.st.pending[i]).Success? <==> IsOneCall(Brackets(p.st.pending[i]))
    {
      ConversionLanguage(p.st.pending[i]);
    }
  }
}
