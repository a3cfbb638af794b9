/** Values shared by every component: optional values and the fallible results
    that stand for the repository's `Result<T>`. */
module Results {

  datatype Option<+T> = None | Some(value: T)

  /** The error values that the modelled code paths can return. */
  datatype BootError =
    | EmptyModuleName
    | InvalidRoutePath(path: string)
    | CyclicImport(chain: seq<string>)
    | LazyGlobal(name: string)
    | SetupFailed(name: string)
    | DuplicateRoute(index: nat)
    | BadRequest(reason: string)
    | Internal(reason: string)
    | HookFailed

  datatype Result<+T> = Ok(value: T) | Err(error: BootError)
}
