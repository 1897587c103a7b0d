/** Operations on sequences shared by the lexer and the hasher. */
module Sequences {

  /** Joins a sequence of sequences end to end. */
  function Concat<T>(pieces: seq<seq<T>>): seq<T>
  {
    if |pieces| == 0 then [] else pieces[0] + Concat(pieces[1..])
  }
}
