/** Results, error codes and outcomes shared by every component of the maintenance service. */
module Outcomes {

  datatype Option<+T> = None | Some(value: T)

  datatype Result<+T> = Ok(value: T) | Err(error: ErrorCode)

  /** The stable error codes that the modelled operations return. */
  datatype ErrorCode =
    | FileSetPath
    | FileSetLimit
    | FileSetHash
    | FileSetRollback
    | GenerationConflict
    | JsonInvalid
    | ProductMismatch
    | ProtocolInvalid
    | ProtocolVersion
    | RegistryIo
    | RegistrySetLimit
    | RegistrySetRollback
    | RootIdentity
    | RootUnauthorized
    | ServiceBusy
    | StagingInvalid
    | TransactionConflict
    | TransactionIo
    | TransactionState
    | RecoveryIncomplete

  /** How a step that touches durable state can end. `PowerLoss` ends the whole process: no caller
      runs another statement after it. */
  datatype Outcome = Done | Failed(code: ErrorCode) | PowerLoss

  /** A fault drawn once per primitive: an error or a power loss, before or after its effect.
      `NoFault` comes first so that it is the default value. */
  datatype Fault = NoFault | FailBefore(code: ErrorCode) | FailAfter(code: ErrorCode) | LossBefore | LossAfter {
    predicate Before() { FailBefore? || LossBefore? }

    predicate IsError() { FailBefore? || FailAfter? }

    /** The fault where nothing but power losses can happen. */
    function Within(lossOnly: bool): (fault: Fault)
      ensures lossOnly ==> !fault.IsError() && !fault.Report().Failed?
      ensures !lossOnly ==> fault == this
      ensures this == NoFault ==> fault == NoFault
    {
      if lossOnly && IsError() then NoFault else this
    }

    /** What a faulty step reports to its caller. */
    function Report(): Outcome {
      match this
      case NoFault => Done
      case FailBefore(c) => Failed(c)
      case FailAfter(c) => Failed(c)
      case LossBefore => PowerLoss
      case LossAfter => PowerLoss
    }
  }

  function Lookup<K, V>(m: map<K, V>, k: K): Option<V> {
    if k in m then Some(m[k]) else None
  }
}
