/** Optional values, results and the two ways a run of the analyser can abort. */
module Outcomes {

  datatype Option<T> = None | Some(value: T)

  /** Why the script stops with an exception instead of finishing. */
  datatype Fault =
    | MalformedNetworkLine(line: string)   // IPAddr.new raises on a scope-file line
    | EmptyPrivilegedUserLine              // a blank privileged-user line yields nil for casecmp

  datatype Result<T> = Ok(value: T) | Err(fault: Fault)
}
