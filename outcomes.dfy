/** Optional values and the error results the services raise as RuntimeExceptions. */
module Outcomes {

  /** A nullable reference of the source: None stands for Java's null. */
  datatype Option<+T> = None | Some(value: T)

  /** The failures the services report. */
  datatype Error =
    | WorkerNotFound(id: int)                     // "Worker with ID <id> not found"
    | SerializationFailed                         // Jackson could not serialise the record
    | PublishFailed                               // KafkaTemplate.send threw
    | SequenceOverflow(seqName: string, counter: int) // a counter value beyond the 32-bit range

  /** The value an operation returns, or the exception it raises. */
  datatype Result<+T> = Ok(value: T) | Err(error: Error)

  /** Completion of an operation that returns nothing (a Java void method). */
  datatype Outcome = Pass | Fail(error: Error)
}
