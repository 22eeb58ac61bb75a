/** The failure-carrying values the model uses for `Option`, error returns and panics. */
module Wrappers {
  datatype Option<+T> = None | Some(value: T)

  /** Puts an optional element in front of a sequence. */
  function Prepend<T>(e: Option<T>, s: seq<T>): (r: seq<T>)
  {
    if e.Some? then [e.value] + s else s
  }

  lemma SplitLast<T>(s: seq<T>)
    requires s != []
    ensures s[..|s| - 1] + [s[|s| - 1]] == s
  {
  }
}
