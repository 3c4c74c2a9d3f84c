/** Shared result types: the source raises ValueError where the model returns Err. */
module Common {

  datatype Option<+T> = None | Some(value: T)

  /** The two ValueErrors of the `ipaddress` module that the service can hit. */
  datatype Error =
    | InvalidAddress(text: string)   // ipaddress.ip_address(text) refused the text
    | InvalidNetwork(text: string)   // ipaddress.ip_network(text) refused the text

  datatype Result<+T> = Ok(value: T) | Err(error: Error)
}
