/** What a controller sees when it runs a remote call through its
    resilience policy: a value, or one of the exceptions the controllers
    tell apart. */
module Remote {
  import Resilience

  /** Exceptions the controllers do not single out. */
  datatype Fault =
    | ReplyTimeout    // `TimeoutException` from the client's own 30 s wait
    | InvalidCast     // a reply of the wrong response type
    | OtherException  // anything else (broker down, publish failure, ...)

  datatype Result<T> =
    | Ok(value: T)
    | TimeoutRejected         // Polly's `TimeoutRejectedException`
    | BrokenCircuit           // Polly's `BrokenCircuitException`
    | Faulted(fault: Fault)

  /** What `ExecuteAsync` hands the caller: the value when the call
      succeeded, the two Polly exceptions, or the exception the call threw. */
  function OfVerdict<T>(v: Resilience.Verdict, value: T): (r: Result<T>)
    ensures r.BrokenCircuit? <==> v.CircuitRejected?
    ensures r.TimeoutRejected? <==> v.TimeoutRejected?
    ensures r.Ok? <==> v == Resilience.Completed(Resilience.Success)
    ensures r.Ok? ==> r.value == value
  {
    match v
    case CircuitRejected => BrokenCircuit
    case TimeoutRejected => TimeoutRejected
    case Completed(o) => if o.Success? then Ok(value) else Faulted(OtherException)
  }
}
