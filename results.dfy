/** The outcome of a field validator: the accepted (possibly normalised)
    value, or the message of the ValueError the validator raises. */
module Results {

  datatype Result = Ok(value: string) | Err(msg: string)
}
