/** The two value-or-nothing shapes the source uses: std::optional, and expected<T, Error>
    reduced to what control flow reads. */
module Options {

  datatype Option<+T> = None | Some(value: T)

  datatype Result<+T, +E> = Ok(value: T) | Err(error: E)
}
