/** Values shared by the application and the command layers. */
module Types {

  datatype Option<T> = None | Some(value: T)

  /** An action is a plain function pointer taking the leftover arguments.
      Its body is not modelled; each action is known only by its identity. */
  datatype Action =
    | DefaultAppAction       // the closure installed by `App::default`, which prints "j"
    | UserAction(id: nat)    // any function pointer registered by the host program

  /** The one error kind the library declares. No dispatch path produces it. */
  datatype ActionErrorKind = NotFound

  /** `Result<(), Box<dyn Error>>`, with the side effect the call had as its payload. */
  datatype RunResult<T> = Ok(effect: T) | Err(kind: ActionErrorKind)

  /** Concatenation is associative; stating it saves the solver from proving
      it element by element. */
  lemma ConcatAssoc<T>(x: seq<T>, y: seq<T>, z: seq<T>)
    ensures (x + y) + z == x + (y + z)
  {
  }
}
