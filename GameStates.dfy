/**
 * The serialisable game state of Assets/Scripts/GameState.cs: the running
 * sum and the first, last and previous cells of a selection.
 */
module GameStates {
  import opened Nodes

  datatype GameState = GameState(selectedResult: int, first: Node?, last: Node?, previous: Node?)

  /** A selection is active when it has a first and a last cell and they are different cells. */
  function IsActive(s: GameState): (r: bool)
    ensures r <==> |{s.first, s.last} - {null}| == 2
  {
    s.first != null && s.last != null && s.first != s.last
  }

  /** No first cell, no active selection. */
  lemma InactiveWithoutFirst(s: GameState)
    requires s.first == null
    ensures !IsActive(s)
  {
  }

  /** No last cell, no active selection. */
  lemma InactiveWithoutLast(s: GameState)
    requires s.last == null
    ensures !IsActive(s)
  {
  }

  /** A selection that starts and ends on the same cell is not active. */
  lemma InactiveOnOneCell(s: GameState)
    requires s.first == s.last
    ensures !IsActive(s)
  {
  }

  /** Active exactly when both ends are set and distinct; the sum and the previous cell play no part. */
  lemma ActiveExactly(s: GameState)
    ensures IsActive(s) <==> s.first != null && s.last != null && s.first != s.last
    ensures forall sum: int, p: Node? :: IsActive(s.(selectedResult := sum, previous := p)) == IsActive(s)
  {
  }
}
