/**
 * src/bresse/_chess.py: walking a PGN game tree to its last node and
 * appending a move there.
 */
module GameTree {
  import opened Wrappers
  import opened ChessLib

  /**
   * chess.pgn.GameNode: the move that leads to the node (none at the root,
   * the chess.pgn.Game itself) and its variations, the first being the mainline.
   */
  datatype GameNode = GameNode(move: Option<Move>, variations: seq<GameNode>)

  /** A node without variations reached by `m`. */
  function Leaf(m: Move): GameNode {
    GameNode(Some(m), [])
  }

  /** chess.pgn.Game(): a game with no moves. */
  function NewGame(): GameNode {
    GameNode(None, [])
  }

  /** A path names a node by the variation index taken at each step. */
  predicate ValidPath(t: GameNode, p: seq<nat>)
    decreases p
  {
    p == [] || (p[0] < |t.variations| && ValidPath(t.variations[p[0]], p[1..]))
  }

  /** The node a valid path leads to. */
  function At(t: GameNode, p: seq<nat>): GameNode
    requires ValidPath(t, p)
    decreases p
  {
    if p == [] then t else At(t.variations[p[0]], p[1..])
  }

  /** Every step of the path takes the last variation, variations[-1]. */
  predicate FollowsLast(t: GameNode, p: seq<nat>)
    decreases p
  {
    p == [] || (t.variations != [] && p[0] == |t.variations| - 1 && FollowsLast(t.variations[p[0]], p[1..]))
  }

  /** The path that keeps taking the last variation until there is none. */
  function LastPath(t: GameNode): (p: seq<nat>)
    ensures ValidPath(t, p) && FollowsLast(t, p) && At(t, p).variations == []
    decreases t
  {
    if t.variations == [] then []
    else [|t.variations| - 1] + LastPath(t.variations[|t.variations| - 1])
  }

  /** Only one path follows the last variations to a node without any. */
  lemma {:induction false} LastPathUnique(t: GameNode, p: seq<nat>)
    requires ValidPath(t, p) && FollowsLast(t, p) && At(t, p).variations == []
    ensures p == LastPath(t)
    decreases p
  {
    if p != [] {
      LastPathUnique(t.variations[p[0]], p[1..]);
    }
  }

  /**
   * get_child_node: descend through variations[-1] while there is one; the
   * node reached has no variations, it is the node itself when that has none,
   * and it is the end of the last-variation path.
   */
  function GetChildNode(node: GameNode): (r: GameNode)
    ensures r.variations == []
    ensures node.variations == [] ==> r == node
    ensures r == At(node, LastPath(node))
    decreases node
  {
    if node.variations != [] then GetChildNode(node.variations[|node.variations| - 1])
    else node
  }

  /** add_variation at the node a path names: one more variation, a leaf holding `m`, after the others. */
  function AppendAt(t: GameNode, p: seq<nat>, m: Move): GameNode
    requires ValidPath(t, p)
    decreases p
  {
    if p == [] then GameNode(t.move, t.variations + [Leaf(m)])
    else GameNode(t.move, t.variations[p[0] := AppendAt(t.variations[p[0]], p[1..], m)])
  }

  /** The tree game_play_san leaves: `m` appended at the node get_child_node returns. */
  function Played(t: GameNode, m: Move): GameNode {
    AppendAt(t, LastPath(t), m)
  }

  /** The path still exists after the append, and its node gained exactly the new leaf. */
  lemma {:induction false} AppendAtAddsChild(t: GameNode, p: seq<nat>, m: Move)
    requires ValidPath(t, p)
    ensures ValidPath(AppendAt(t, p, m), p)
    ensures At(AppendAt(t, p, m), p) == GameNode(At(t, p).move, At(t, p).variations + [Leaf(m)])
    decreases p
  {
    if p != [] {
      AppendAtAddsChild(t.variations[p[0]], p[1..], m);
    }
  }

  /** q is a prefix of p: the node q names is p's node or one of its ancestors. */
  predicate Prefix(q: seq<nat>, p: seq<nat>) {
    |q| <= |p| && p[..|q|] == q
  }

  /** Every node off the path to the appended leaf is untouched. */
  lemma {:induction false} AppendAtKeepsOthers(t: GameNode, p: seq<nat>, m: Move, q: seq<nat>)
    requires ValidPath(t, p) && ValidPath(t, q) && !Prefix(q, p)
    ensures ValidPath(AppendAt(t, p, m), q) && At(AppendAt(t, p, m), q) == At(t, q)
    decreases p
  {
    if p != [] && q[0] == p[0] {
      assert !Prefix(q[1..], p[1..]) by {
        if |q| <= |p| {
          assert p[..|q|] == [p[0]] + p[1..][..|q| - 1];
        }
      }
      AppendAtKeepsOthers(t.variations[p[0]], p[1..], m, q[1..]);
    }
  }

  /** The ancestors of the appended leaf's parent keep their move and their number of variations. */
  lemma {:induction false} AppendAtKeepsAncestors(t: GameNode, p: seq<nat>, m: Move, q: seq<nat>)
    requires ValidPath(t, p) && Prefix(q, p) && q != p
    ensures ValidPath(t, q) && ValidPath(AppendAt(t, p, m), q)
    ensures At(AppendAt(t, p, m), q).move == At(t, q).move
    ensures |At(AppendAt(t, p, m), q).variations| == |At(t, q).variations|
    decreases p
  {
    if q != [] {
      assert q[0] == p[0];
      assert Prefix(q[1..], p[1..]) && q[1..] != p[1..] by {
        assert p[1..][..|q| - 1] == p[..|q|][1..];
        assert q == [q[0]] + q[1..] && p == [p[0]] + p[1..];
      }
      AppendAtKeepsAncestors(t.variations[p[0]], p[1..], m, q[1..]);
    }
  }

  /** The number of nodes in a tree. */
  function Size(t: GameNode): nat
    decreases t
  {
    1 + Sum(seq(|t.variations|, i requires 0 <= i < |t.variations| => Size(t.variations[i])))
  }

  function Sum(s: seq<nat>): nat {
    if s == [] then 0 else Sum(s[..|s| - 1]) + s[|s| - 1]
  }

  lemma {:induction false} SumAppend(s: seq<nat>, x: nat)
    ensures Sum(s + [x]) == Sum(s) + x
  {
    assert (s + [x])[..|s|] == s;
  }

  lemma {:induction false} SumUpdate(s: seq<nat>, i: nat, x: nat)
    requires i < |s|
    ensures Sum(s[i := x]) + s[i] == Sum(s) + x
  {
    if i < |s| - 1 {
      assert s[i := x][..|s| - 1] == s[..|s| - 1][i := x];
      SumUpdate(s[..|s| - 1], i, x);
    } else {
      assert s[i := x][..|s| - 1] == s[..|s| - 1];
    }
  }

  /** The append adds exactly one node. */
  lemma {:induction false} AppendAtSize(t: GameNode, p: seq<nat>, m: Move)
    requires ValidPath(t, p)
    ensures Size(AppendAt(t, p, m)) == Size(t) + 1
    decreases p
  {
    var sizes := seq(|t.variations|, i requires 0 <= i < |t.variations| => Size(t.variations[i]));
    var t' := AppendAt(t, p, m);
    var sizes' := seq(|t'.variations|, i requires 0 <= i < |t'.variations| => Size(t'.variations[i]));
    if p == [] {
      assert Size(Leaf(m)) == 1 by {
        assert Sum([]) == 0;
      }
      assert sizes' == sizes + [1];
      SumAppend(sizes, 1);
    } else {
      AppendAtSize(t.variations[p[0]], p[1..], m);
      assert sizes' == sizes[p[0] := Size(t.variations[p[0]]) + 1];
      SumUpdate(sizes, p[0], Size(t.variations[p[0]]) + 1);
    }
  }

  /** After the append, get_child_node finds the new leaf, one step below the old last node. */
  lemma {:induction false} PlayedLastNode(t: GameNode, m: Move)
    ensures LastPath(Played(t, m)) == LastPath(t) + [0]
    ensures GetChildNode(Played(t, m)) == Leaf(m)
    decreases t
  {
    if t.variations != [] {
      var k := |t.variations| - 1;
      PlayedLastNode(t.variations[k], m);
    }
  }

  /** The moves of the mainline, following variations[0], as str(game) exports them. */
  function Mainline(t: GameNode): seq<Move>
    decreases t
  {
    if t.variations == [] then []
    else
      var child := t.variations[0];
      (if child.move.Some? then [child.move.value] else []) + Mainline(child)
  }

  /** Every node below has at most one variation, and every node below the root holds a move. */
  predicate IsChain(t: GameNode)
    decreases t
  {
    |t.variations| <= 1 && forall i | 0 <= i < |t.variations| :: t.variations[i].move.Some? && IsChain(t.variations[i])
  }

  /**
   * On a chain the mainline str(game) follows and the last variations
   * get_child_node follows coincide; appending keeps it a chain and extends
   * its mainline by the move, so the board rebuilt from the PGN sees every
   * move played so far.
   */
  lemma {:induction false} PlayedChain(t: GameNode, m: Move)
    requires IsChain(t)
    ensures IsChain(Played(t, m))
    ensures Mainline(Played(t, m)) == Mainline(t) + [m]
    decreases t
  {
    if t.variations != [] {
      PlayedChain(t.variations[0], m);
    }
  }

  /** Why the chain matters: once a node has two variations, the appended move is not on the mainline. */
  lemma SecondVariationOffMainline(m0: Move, m1: Move, m: Move)
    ensures var t := GameNode(None, [Leaf(m0), Leaf(m1)]);
      Mainline(Played(t, m)) == [m0] && GetChildNode(Played(t, m)) == Leaf(m)
  {
    var t := GameNode(None, [Leaf(m0), Leaf(m1)]);
    PlayedLastNode(t, m);
    assert LastPath(t) == [1];
    assert AppendAt(Leaf(m1), [], m) == GameNode(Some(m1), [Leaf(m)]);
    assert [1][1..] == [];
    assert Played(t, m) == GameNode(None, [Leaf(m0), GameNode(Some(m1), [Leaf(m)])]);
  }

  /**
   * get_child_node on the chain game, e4, e5 returns the e5 node; with an
   * earlier sibling beside e4 it still descends through the last variation.
   */
  lemma GetChildNodeExample(m1: Move, m2: Move, other: Move)
    ensures GetChildNode(GameNode(None, [GameNode(Some(m1), [Leaf(m2)])])) == Leaf(m2)
    ensures GetChildNode(GameNode(None, [Leaf(other), GameNode(Some(m1), [Leaf(m2)])])) == Leaf(m2)
  {
  }

  /** Two plays on a new game build the chain game, first move, second move. */
  lemma {:induction false} TwoPlays(m1: Move, m2: Move)
    ensures Played(Played(NewGame(), m1), m2) == GameNode(None, [GameNode(Some(m1), [Leaf(m2)])])
    ensures Mainline(Played(Played(NewGame(), m1), m2)) == [m1, m2]
  {
    assert LastPath(NewGame()) == [];
    assert Played(NewGame(), m1) == GameNode(None, [Leaf(m1)]);
    var t := GameNode(None, [Leaf(m1)]);
    assert LastPath(t) == [0];
    assert [0][1..] == [];
    assert AppendAt(Leaf(m1), [], m2) == GameNode(Some(m1), [Leaf(m2)]);
    assert Played(t, m2) == GameNode(None, [GameNode(Some(m1), [Leaf(m2)])]);
    assert Mainline(GameNode(Some(m1), [Leaf(m2)])) == [m2];
  }

  /** Why game_play_san fails. */
  datatype PlayError = PgnInvalid | SanInvalid(error: MoveError)

  /** chess.pgn.Game, whose node tree game_play_san grows in place. */
  class Game {
    var root: GameNode

    constructor ()
      ensures root == NewGame()
    {
      root := NewGame();
    }
  }

  /**
   * game_play_san: rebuild the board from the exported PGN (its mainline),
   * parse the SAN text there, and only then add the move as a new variation
   * of the node get_child_node returns. Each error leaves the tree as it was.
   */
  method GamePlaySan(game: Game, san: string, rules: Rules) returns (outcome: Outcome<PlayError>)
    modifies game
    ensures !rules.readable(Mainline(old(game.root))) ==>
      outcome == Fail(PgnInvalid) && game.root == old(game.root)
    ensures rules.readable(Mainline(old(game.root))) ==>
      match rules.parseSan(Mainline(old(game.root)), san)
      case Failure(e) => outcome == Fail(SanInvalid(e)) && game.root == old(game.root)
      case Success(m) => outcome == Pass && game.root == Played(old(game.root), m)
  {
    var mainline := Mainline(game.root);
    if !rules.readable(mainline) {
      return Fail(PgnInvalid);
    }
    var board := new Board(rules, mainline);
    var parsed := board.ParseSan(san);
    if parsed.Failure? {
      return Fail(SanInvalid(parsed.error));
    }
    game.root := AppendAt(game.root, LastPath(game.root), parsed.value);
    outcome := Pass;
  }
}
