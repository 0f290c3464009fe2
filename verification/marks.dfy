/** The marks a cell can hold, and the numeric encoding the win test relies on. */
module Marks {

  /** A cell is either free or holds one player's mark. */
  datatype Mark = Free | Nought | Cross

  /** The enum's underlying value. The enumeration's declaration is not part
      of this model; the values below are an ASSUMPTION: Free, Nought, Cross
      declared in that order with default numbering, so 0, 1 and 2. */
  function Code(m: Mark): bv8
  {
    match m
    case Free => 0
    case Nought => 1
    case Cross => 2
  }

  /** The line test exactly as the window code writes it: the first cell is
      not free and the bitwise AND of the three codes equals the first code.
      Under the assumed encoding it holds exactly when the three marks are
      equal and not Free: the trick neither misses a line nor reports a
      mixed one. */
  function BitwiseMatch(a: Mark, b: Mark, c: Mark): (r: bool)
    ensures r <==> a != Free && a == b && b == c
  {
    if a == Free then false
    else
      AndOfCodesIsEquality(a, b, c);
      (Code(a) & Code(b) & Code(c)) == Code(a)
  }

  /** For a filled first cell, the AND of the three assumed codes equals the
      first code iff all three marks are the same. */
  lemma AndOfCodesIsEquality(a: Mark, b: Mark, c: Mark)
    requires a != Free
    ensures (Code(a) & Code(b) & Code(c)) == Code(a) <==> a == b && b == c
  {
    match a {
      case Nought =>
        match b {
          case Free => assert Code(Nought) & Code(Free) == 0;
          case Nought =>
            match c {
              case Free => assert Code(Nought) & Code(Nought) & Code(Free) == 0;
              case Nought => assert Code(Nought) & Code(Nought) & Code(Nought) == 1;
              case Cross => assert Code(Nought) & Code(Nought) & Code(Cross) == 0;
            }
          case Cross => assert Code(Nought) & Code(Cross) == 0;
        }
      case Cross =>
        match b {
          case Free => assert Code(Cross) & Code(Free) == 0;
          case Nought => assert Code(Cross) & Code(Nought) == 0;
          case Cross =>
            match c {
              case Free => assert Code(Cross) & Code(Cross) & Code(Free) == 0;
              case Nought => assert Code(Cross) & Code(Cross) & Code(Nought) == 0;
              case Cross => assert Code(Cross) & Code(Cross) & Code(Cross) == 2;
            }
        }
    }
  }
}
