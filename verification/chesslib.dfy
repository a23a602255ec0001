/**
 * The slice of the python-chess library that the core relies on, kept
 * abstract: a move is a plain value, and what the library knows about chess
 * (SAN parsing, legality, PGN round trips) is an oracle passed in as a value.
 */
module ChessLib {
  import opened Wrappers

  /** chess.Move: a from-square, a to-square (0..63) and an optional promotion piece. */
  datatype Move = Move(fromSquare: nat, toSquare: nat, promotion: Option<nat>)

  /** The exceptions Board.push_san and Board.parse_san raise. */
  datatype MoveError = InvalidMove | IllegalMove | AmbiguousMove

  /**
   * What the rules library answers. A position is the one reached by
   * playing a move stack from the standard starting position.
   *  - parseSan(stack, san): Board.parse_san in that position: the move the
   *    SAN text denotes, or the error it raises.
   *  - readable(mainline): whether chess.pgn.read_game reports no errors on
   *    the PGN text exported for a game, judged here on the game's mainline
   *    alone (the exported text also holds every side variation).
   */
  datatype Rules = Rules(
    parseSan: (seq<Move>, string) -> Result<Move, MoveError>,
    readable: seq<Move> -> bool)

  /** Board.is_legal for SAN text: push_san accepts it in this position. */
  predicate Legal(rules: Rules, stack: seq<Move>, san: string) {
    rules.parseSan(stack, san).Success?
  }

  /** chess.Board, seen through its move stack. */
  class Board {
    const rules: Rules
    var moveStack: seq<Move>

    constructor (rules: Rules, moveStack: seq<Move>)
      ensures this.rules == rules && this.moveStack == moveStack
    {
      this.rules := rules;
      this.moveStack := moveStack;
    }

    /** Board.push_san: parse the SAN text and play it; on error nothing is pushed. */
    method PushSan(san: string) returns (r: Result<Move, MoveError>)
      modifies this
      ensures r == rules.parseSan(old(moveStack), san)
      ensures r.Success? <==> Legal(rules, old(moveStack), san)
      ensures moveStack == if r.Success? then old(moveStack) + [r.value] else old(moveStack)
    {
      r := rules.parseSan(moveStack, san);
      if r.Success? {
        moveStack := moveStack + [r.value];
      }
    }

    /** Board.parse_san: the move the SAN text denotes here, without playing it. */
    method ParseSan(san: string) returns (r: Result<Move, MoveError>)
      ensures r.Success? <==> Legal(rules, moveStack, san)
      ensures r == rules.parseSan(moveStack, san)
    {
      r := rules.parseSan(moveStack, san);
    }

    /** Board.pop: take back the last move played. */
    method Pop() returns (m: Move)
      requires moveStack != []
      modifies this
      ensures old(moveStack) == moveStack + [m]
    {
      m := moveStack[|moveStack| - 1];
      moveStack := moveStack[..|moveStack| - 1];
    }
  }
}
