/** The eight shape kinds of the game and the integer codes the program gives them. */
module Tetrominoes {

  /** NoShape marks an empty cell and the absence of a falling piece; the other seven are the
      tetrominoes. */
  datatype Tetrominoe =
    | NoShape
    | ZShape
    | SShape
    | LineShape
    | TShape
    | SquareShape
    | LShape
    | MirroredLShape

  /** The integer constant of each kind (it also indexes the offset table). */
  function Code(k: Tetrominoe): (n: int)
    ensures 0 <= n <= 7
    ensures n == 0 <==> k == NoShape
  {
    match k
    case NoShape => 0
    case ZShape => 1
    case SShape => 2
    case LineShape => 3
    case TShape => 4
    case SquareShape => 5
    case LShape => 6
    case MirroredLShape => 7
  }

  /** The kind whose constant is `n`; a random draw in 1..7 names a tetromino. */
  function FromCode(n: int): (k: Tetrominoe)
    requires 0 <= n <= 7
    ensures Code(k) == n
    ensures 1 <= n ==> k != NoShape
  {
    if n == 0 then NoShape
    else if n == 1 then ZShape
    else if n == 2 then SShape
    else if n == 3 then LineShape
    else if n == 4 then TShape
    else if n == 5 then SquareShape
    else if n == 6 then LShape
    else MirroredLShape
  }

  /** Codes and kinds are in one-to-one correspondence. */
  lemma CodeRoundTrip(k: Tetrominoe)
    ensures FromCode(Code(k)) == k
  {
  }
}
