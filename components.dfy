/** The `Position` component: the current position and the one recorded at the last
    logic-step snapshot, used to draw between logic steps. */
module Components {
  import opened Vectors

  class Position {
    var pos: Vec2
    var oldPos: Vec2

    /** `Position::new`: both positions start equal. */
    constructor (p: Vec2)
      ensures pos == p && oldPos == p
    {
      pos := p;
      oldPos := p;
    }

    /** `snapshot`: records the current position as the old one. */
    method Snapshot()
      modifies this
      ensures pos == old(pos) && oldPos == old(pos)
      ensures forall alpha :: DrawPos(alpha) == pos
    {
      oldPos := pos;
    }

    /** `draw_pos(alpha)`: extrapolates the last step `pos - old_pos` by `alpha` past `pos`. */
    function DrawPos(alpha: real): (r: Vec2)
      reads this
      ensures alpha == 0.0 ==> r == pos
      ensures alpha == -1.0 ==> r == oldPos
      ensures pos == oldPos ==> r == pos
      ensures Sub2(r, pos) == Scale2(alpha, Sub2(pos, oldPos))
    {
      Add2(pos, Scale2(alpha, Sub2(pos, oldPos)))
    }
  }

  /** Extrapolation is linear in `alpha`: one step of `alpha` moves the drawn point by the
      last step. */
  lemma DrawPosLinear(p: Position, alpha: real)
    ensures Sub2(p.DrawPos(alpha + 1.0), p.DrawPos(alpha)) == Sub2(p.pos, p.oldPos)
  {
  }
}
