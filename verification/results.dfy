/** Option and Result values shared by the modules of this model.
    Result stands for a C++ exception (`throw`) or an error return. */
module Results {

  datatype Option<+T> = None | Some(value: T)

  datatype Result<+T, +E> = Ok(value: T) | Err(error: E)
}
