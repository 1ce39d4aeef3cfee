/** Execution traces: the flat event language that both analyses read. */
module Trace {
  import opened GasModel
  import opened Wrappers

  type ActorID = U64
  type MethodNum = U64
  type ErrorNumber = nat

  /** An address, identified with its printed form. */
  type Address = string

  datatype IpldBlock = IpldBlock(codec: U64, data: seq<bv8>)
  datatype TokenAmount = TokenAmount(atto: int)
  datatype Cid = Cid(bytes: seq<bv8>)
  datatype ExitCode = ExitCode(value: nat)

  const EXIT_OK := ExitCode(0)
  const SYS_ASSERTION_FAILED := ExitCode(10)

  datatype ExecutionEvent =
    | GasCharged(name: string, computeMilli: U64, otherMilli: U64)
    | Call(from: ActorID, to: Address, methodNum: MethodNum, params: Option<IpldBlock>,
           value: TokenAmount, gasLimit: U64, readOnly: bool)
    | CallReturn(returnValue: Option<IpldBlock>, exitCode: ExitCode)
    | CallError(reason: string, errno: ErrorNumber)
    | InvokeActor(cid: Cid)
    | Log(msg: string)

  type ExecutionTrace = seq<ExecutionEvent>
}
