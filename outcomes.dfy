/** Results of the balancer's two entry points, and the two errors they raise. */
module Outcomes {

  datatype Option<T> = None | Some(value: T)

  datatype Error =
    | NoValidDistribution   // no attempt of the search produced a valid distribution
    | NoBalancedOptions     // the option builder collected no candidate at all

  datatype Result<T> = Ok(value: T) | Err(error: Error)
}
