/** The two sides of a binary tree; operations that the source writes as mirror images take one as a parameter. */
module Sides {

  datatype Side = Left | Right

  function Opp(s: Side): Side {
    if s.Left? then Right else Left
  }
}
