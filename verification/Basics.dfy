/** What several of the components need: optional values, and pieces put together. */
module Basics {

  datatype Option<T> = None | Some(value: T)

  function Flatten<T>(pieces: seq<seq<T>>): seq<T>
  {
    if pieces == [] then [] else pieces[0] + Flatten(pieces[1..])
  }
}
