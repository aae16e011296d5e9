/** What the modules share. */
module Basics {

  datatype Option<T> = None | Some(value: T)

  function Max(a: int, b: int): int
  {
    if a < b then b else a
  }

  /** A limit as a number of requests: a negative one admits none. */
  function Cap(limit: int): nat
  {
    if limit < 0 then 0 else limit
  }

  /** ASCII white space, as `str.strip` takes it. */
  predicate Space(c: char)
  {
    c == ' ' || '\t' <= c <= '\r' || '\U{1c}' <= c <= '\U{1f}'
  }

  function Strip(s: string): string
  {
    if s != [] && Space(s[0]) then Strip(s[1..])
    else if s != [] && Space(s[|s| - 1]) then Strip(s[..|s| - 1])
    else s
  }
}
