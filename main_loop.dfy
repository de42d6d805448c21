/// The arithmetic of the driver loop: the gravity period and the candidate
/// positions of the gravity tick and of the Left, Right and Down keys.
module MainLoop {
  import opened Block
  import opened Game

  /// `a.saturating_sub(b)` on unsigned words.
  function SaturatingSub(a: nat, b: nat): nat
  {
    if a >= b then a - b else 0
  }

  function Max(a: int, b: int): int
  {
    if a >= b then a else b
  }

  /// Milliseconds between two gravity ticks after `line` cleared lines:
  /// 1000 minus 100 per ten lines, with 0 read as 100.
  function GravityPeriod(line: nat): (ms: nat)
    ensures 100 <= ms <= 1000
    ensures ms % 100 == 0
  {
    match SaturatingSub(1000, (line / 10) * 100)
    case 0 => 100
    case msec => msec
  }

  /// The period is 1000 ms less 100 ms per ten lines, floored at 100 ms.
  lemma GravityPeriodClosedForm(line: nat)
    ensures GravityPeriod(line) == Max(100, 1000 - 100 * (line / 10))
  {
  }

  /// More cleared lines never make the blocks fall more slowly.
  lemma GravityPeriodMonotone(a: nat, b: nat)
    requires a <= b
    ensures GravityPeriod(b) <= GravityPeriod(a)
  {
    GravityPeriodClosedForm(a);
    GravityPeriodClosedForm(b);
  }

  /// The Left key's candidate: one column left, or the same column at 0
  /// (`checked_sub(1).unwrap_or(x)`).
  function LeftCandidate(p: Position): (q: Position)
    ensures q.y == p.y && q.x <= p.x
    ensures p.x > 0 ==> q.x + 1 == p.x
  {
    Position(if p.x >= 1 then p.x - 1 else p.x, p.y)
  }

  /// The Right key's candidate.
  function RightCandidate(p: Position): (q: Position)
    ensures q.y == p.y && q.x == p.x + 1
  {
    Position(p.x + 1, p.y)
  }

  /// The candidate of the Down key and of the gravity tick.
  function DownCandidate(p: Position): (q: Position)
    ensures q.x == p.x && q.y == p.y + 1
  {
    Position(p.x, p.y + 1)
  }

  /// Right undoes Left away from column 0, Left always undoes Right, and Left
  /// stays put exactly at column 0; Down changes only the row.
  lemma CandidatesRoundTrip(p: Position)
    ensures LeftCandidate(RightCandidate(p)) == p
    ensures p.x > 0 ==> RightCandidate(LeftCandidate(p)) == p
    ensures LeftCandidate(p) == p <==> p.x == 0
    ensures DownCandidate(p).x == p.x && DownCandidate(p).y == p.y + 1
  {
  }

  /// One gravity tick: fall one row when that does not collide. `landed`
  /// reports the other case, where the game goes on to land the block;
  /// landing is not part of this model, so the state is left as it was. On
  /// the game's 0/1 field only I, S, J and T ever land, on an occupied cell.
  method GravityTick(game: Game) returns (landed: bool)
    requires game.Valid()
    modifies game`pos
    ensures game.Valid()
    ensures landed == Collides(game.field[..], DownCandidate(old(game.pos)), game.block)
    ensures landed <==> (Tag(game.block) % 2 == 1 &&
      CollidesIntended(game.field[..], DownCandidate(old(game.pos)), game.block))
    ensures game.pos == if landed then old(game.pos) else DownCandidate(old(game.pos))
    ensures unchanged(game.field)
  {
    var newPos := DownCandidate(game.pos);
    var hit := IsCollision(game.field, newPos, game.block);
    if !hit {
      game.pos := newPos;
    }
    landed := hit;
    CollisionOnBinaryField(game.field[..], newPos, game.block);
  }

  /// The Left key.
  method MoveLeft(game: Game)
    requires game.Valid()
    modifies game`pos
    ensures game.Valid()
    ensures game.pos ==
      if Collides(game.field[..], LeftCandidate(old(game.pos)), game.block)
      then old(game.pos) else LeftCandidate(old(game.pos))
    ensures old(game.pos).x == 0 ==> game.pos == old(game.pos)
    ensures unchanged(game.field)
  {
    game.MoveBlock(LeftCandidate(game.pos));
  }

  /// The Right key.
  method MoveRight(game: Game)
    requires game.Valid()
    modifies game`pos
    ensures game.Valid()
    ensures game.pos ==
      if Collides(game.field[..], RightCandidate(old(game.pos)), game.block)
      then old(game.pos) else RightCandidate(old(game.pos))
    ensures unchanged(game.field)
  {
    game.MoveBlock(RightCandidate(game.pos));
  }

  /// The Down key: the same step as the gravity tick, without landing.
  method MoveDown(game: Game)
    requires game.Valid()
    modifies game`pos
    ensures game.Valid()
    ensures game.pos ==
      if Collides(game.field[..], DownCandidate(old(game.pos)), game.block)
      then old(game.pos) else DownCandidate(old(game.pos))
    ensures unchanged(game.field)
  {
    game.MoveBlock(DownCandidate(game.pos));
  }
}
