/** How the fused structures report an error. */
module Results {
  datatype Error = TooFewSources | NoBuckets | SourceOutOfRange | IndexOutOfRange | SourceEmpty | QueueFull
                 | WrongSurvivorCount | InvalidSurvivor | WrongSurvivorSize | LengthExceedsFusion

  datatype Result<+T> = Ok(value: T) | Err(error: Error)
}
