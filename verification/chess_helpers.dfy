/**
 * src/bresse/chess_.py: the same tree walk and append as _chess.py, kept as
 * a second module of the package; both entry points delegate to GameTree.
 */
module ChessHelpers {
  import opened Wrappers
  import opened ChessLib
  import opened GameTree

  /** get_child_node: the node reached through variations[-1], which has none itself. */
  function GetChildNode(node: GameNode): (r: GameNode)
    ensures r.variations == []
    ensures node.variations == [] ==> r == node
    ensures FollowsLast(node, LastPath(node)) && r == At(node, LastPath(node))
  {
    GameTree.GetChildNode(node)
  }

  /**
   * game_play_san: an unreadable PGN or a SAN text that does not parse leaves
   * the tree as it was; otherwise exactly one variation is added, at the
   * deepest last-variation node, and it becomes the new last node.
   */
  method GamePlaySan(game: Game, san: string, rules: Rules) returns (outcome: Outcome<PlayError>)
    modifies game
    ensures outcome.Fail? ==> game.root == old(game.root)
    ensures outcome.Pass? <==>
      rules.readable(Mainline(old(game.root))) && Legal(rules, Mainline(old(game.root)), san)
    ensures outcome.Pass? ==>
      game.root == Played(old(game.root), rules.parseSan(Mainline(old(game.root)), san).value)
  {
    outcome := GameTree.GamePlaySan(game, san, rules);
  }
}
