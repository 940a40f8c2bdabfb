/** The player sprite of Player.sv: four 10-bit registers clocked once a frame. */
module PlayerMotion {

  // A 10-bit register value.
  type Word10 = w: nat | w < 1024

  const SIZE: Word10 := 4
  const X_CENTER: Word10 := 320
  const Y_CENTER: Word10 := 240
  const X_MIN: Word10 := 0
  const X_MAX: Word10 := 639
  const Y_MIN: Word10 := 0
  const Y_MAX: Word10 := 479
  const STEP: Word10 := 1

  const KEY_W := 26
  const KEY_A := 4
  const KEY_S := 22
  const KEY_D := 7

  function Plus(a: Word10, b: Word10): Word10 { (a + b) % 1024 }
  function Minus(a: Word10, b: Word10): Word10 { (a - b) % 1024 }

  // The two's complement the source spells ~STEP + 1.
  const BACK: Word10 := Plus(1023 - STEP, 1)

  datatype Motion = Motion(x: Word10, y: Word10)
  datatype Regs = Regs(x: Word10, y: Word10, m: Motion)

  // What one edge of Reset or frame_clk brings.
  datatype Edge = Reset | Frame(keycode: nat)

  const RESET_REGS := Regs(X_CENTER, Y_CENTER, Motion(0, 0))

  predicate AtTop(y: Word10) { Minus(y, SIZE) <= Y_MIN }
  predicate AtBottom(y: Word10) { Plus(y, SIZE) >= Y_MAX }
  predicate AtLeft(x: Word10) { Minus(x, SIZE) <= X_MIN }
  predicate AtRight(x: Word10) { Plus(x, SIZE) >= X_MAX }

  // The combinational next-motion logic: the vertical edges mask the horizontal ones, and both mask the key.
  function NextMotion(r: Regs, keycode: nat): Motion {
    if AtTop(r.y) then Motion(0, STEP)
    else if AtBottom(r.y) then Motion(0, BACK)
    else if AtLeft(r.x) then Motion(STEP, 0)
    else if AtRight(r.x) then Motion(BACK, 0)
    else if keycode == KEY_W then Motion(0, BACK)
    else if keycode == KEY_A then Motion(BACK, 0)
    else if keycode == KEY_S then Motion(0, STEP)
    else if keycode == KEY_D then Motion(STEP, 0)
    else r.m
  }

  // All four registers load at once, so the position moves by the motion of the previous frame.
  function Next(r: Regs, e: Edge): Regs {
    match e
    case Reset => RESET_REGS
    case Frame(k) => Regs(Plus(r.x, r.m.x), Plus(r.y, r.m.y), NextMotion(r, k))
  }

  function Run(edges: seq<Edge>): Regs {
    if edges == [] then RESET_REGS else Next(Run(edges[..|edges| - 1]), edges[|edges| - 1])
  }

  // The number a motion register stands for.
  function Signed(w: Word10): int { if w < 512 then w else w - 1024 }

  // The inductive strengthening of the box: one pixel outside an edge the motion points back in, and a sprite on
  // the edge column that still moves outwards is on a row whose vertical edge tests are off.
  ghost predicate Inv(r: Regs) {
    && r.m.x in {0, STEP, BACK} && r.m.y in {0, STEP, BACK}
    && (r.m.x == 0 || r.m.y == 0)
    && 3 <= r.x <= 636 && 3 <= r.y <= 476
    && (r.y == 3 ==> r.m.y == STEP)
    && (r.y == 476 ==> r.m.y == BACK)
    && (r.x == 3 ==> r.m.x == STEP && 5 <= r.y <= 474)
    && (r.x == 636 ==> r.m.x == BACK && 5 <= r.y <= 474)
    && (r.x == 4 && r.m.x == BACK ==> 5 <= r.y <= 474)
    && (r.x == 635 && r.m.x == STEP ==> 5 <= r.y <= 474)
  }

  // Inside the box the registers add like integers.
  lemma MotionAdds(r: Regs)
    requires Inv(r)
    ensures Plus(r.x, r.m.x) == r.x + Signed(r.m.x)
    ensures Plus(r.y, r.m.y) == r.y + Signed(r.m.y)
    ensures Signed(r.m.x) in {-1, 0, 1} && Signed(r.m.y) in {-1, 0, 1}
  {
    assert BACK == 1023;
    assert r.m.x == 1023 ==> (r.x + r.m.x) % 1024 == r.x - 1;
    assert r.m.y == 1023 ==> (r.y + r.m.y) % 1024 == r.y - 1;
  }

  lemma NextKeepsInv(r: Regs, e: Edge)
    requires Inv(r)
    ensures Inv(Next(r, e))
  {
    MotionAdds(r);
  }

  lemma {:induction false} RunKeepsInv(edges: seq<Edge>)
    ensures Inv(Run(edges))
  {
    if edges != [] {
      RunKeepsInv(edges[..|edges| - 1]);
      NextKeepsInv(Run(edges[..|edges| - 1]), edges[|edges| - 1]);
    }
  }

  /** For every sequence of keys and resets the sprite stays in the box and moves along at most one axis, and the
      position registers add without wrapping. */
  lemma BoxInvariant(edges: seq<Edge>, keycode: nat)
    ensures var r := Run(edges);
      && 3 <= r.x <= 636 && 3 <= r.y <= 476
      && (r.m.x == 0 || r.m.y == 0)
      && Next(r, Frame(keycode)).x == r.x + Signed(r.m.x)
      && Next(r, Frame(keycode)).y == r.y + Signed(r.m.y)
      && Signed(r.m.x) in {-1, 0, 1} && Signed(r.m.y) in {-1, 0, 1}
  {
    RunKeepsInv(edges);
    MotionAdds(Run(edges));
  }

  /** What the next motion is, in every state a run can reach: back from the edge the sprite is on, the vertical edges first;
      inside, where the key points; and with no such key, as before. Reset puts the sprite at rest in the centre. */
  lemma NextMotionCases(edges: seq<Edge>, keycode: nat)
    ensures var r := Run(edges); var m := NextMotion(r, keycode); var dx, dy := Signed(m.x), Signed(m.y);
      && (r.y == 4 ==> (dx, dy) == (0, 1))
      && (r.y >= 475 ==> (dx, dy) == (0, -1))
      && (r.y != 4 && r.y < 475 && r.x == 4 ==> (dx, dy) == (1, 0))
      && (r.y != 4 && r.y < 475 && r.x >= 635 ==> (dx, dy) == (-1, 0))
      && (r.y != 4 && r.y < 475 && r.x != 4 && r.x < 635 ==>
           if keycode == 26 then (dx, dy) == (0, -1)
           else if keycode == 4 then (dx, dy) == (-1, 0)
           else if keycode == 22 then (dx, dy) == (0, 1)
           else if keycode == 7 then (dx, dy) == (1, 0)
           else m == r.m)
    ensures Run(edges + [Reset]) == Regs(320, 240, Motion(0, 0))
  {
    RunKeepsInv(edges);
    MotionIs(Run(edges), keycode);
    assert (edges + [Reset])[..|edges|] == edges;
    assert Run(edges + [Reset]) == RESET_REGS;
    SignedIs();
    hide *;
  }

  lemma SignedIs()
    ensures Signed(0) == 0 && Signed(1) == 1 && Signed(1023) == -1
  {
  }

  lemma MotionIs(r: Regs, keycode: nat)
    requires Inv(r)
    ensures NextMotion(r, keycode)
         == if r.y == 4 then Motion(0, 1) else if r.y >= 475 then Motion(0, 1023)
            else if r.x == 4 then Motion(1, 0) else if r.x >= 635 then Motion(1023, 0)
            else if keycode == 26 then Motion(0, 1023) else if keycode == 4 then Motion(1023, 0)
            else if keycode == 22 then Motion(0, 1) else if keycode == 7 then Motion(1, 0)
            else r.m
  {
    EdgesAre(r);
    assert BACK == 1023;
    hide AtTop, AtBottom, AtLeft, AtRight, Plus, Minus, Inv;
  }

  // The wrapping tests of the edges, in the box.
  lemma EdgesAre(r: Regs)
    requires Inv(r)
    ensures AtTop(r.y) <==> r.y == 4
    ensures AtBottom(r.y) <==> r.y >= 475
    ensures AtLeft(r.x) <==> r.x == 4
    ensures AtRight(r.x) <==> r.x >= 635
  {
  }

  function Holding(keycode: nat, n: nat): seq<Edge> { seq(n, _ => Frame(keycode)) }

  lemma RunHolding(keycode: nat, n: nat)
    ensures Run(Holding(keycode, n + 1)) == Next(Run(Holding(keycode, n)), Frame(keycode))
  {
    assert Holding(keycode, n + 1)[..n] == Holding(keycode, n);
  }

  // How many frames a key can be held from reset before the sprite stands on the edge.
  function Reach(keycode: nat): nat {
    if keycode == KEY_W then 237 else if keycode == KEY_A then 317 else if keycode == KEY_S then 236 else 316
  }

  // Where n frames of one key leave the sprite: a straight line from the centre, one frame late.
  function Line(keycode: nat, n: nat): Regs
    requires 1 <= n <= Reach(keycode)
  {
    if keycode == KEY_W then Regs(320, 241 - n, Motion(0, BACK))
    else if keycode == KEY_A then Regs(321 - n, 240, Motion(BACK, 0))
    else if keycode == KEY_S then Regs(320, 239 + n, Motion(0, STEP))
    else Regs(319 + n, 240, Motion(STEP, 0))
  }

  lemma LineStep(keycode: nat, n: nat)
    requires keycode in {KEY_W, KEY_A, KEY_S, KEY_D} && 1 <= n < Reach(keycode)
    ensures Next(Line(keycode, n), Frame(keycode)) == Line(keycode, n + 1)
  {
    MotionAdds(Line(keycode, n));
  }

  lemma {:induction false} HoldingMoves(keycode: nat, n: nat)
    requires keycode in {KEY_W, KEY_A, KEY_S, KEY_D} && 1 <= n <= Reach(keycode)
    ensures Run(Holding(keycode, n)) == Line(keycode, n)
  {
    RunHolding(keycode, n - 1);
    if n > 1 {
      HoldingMoves(keycode, n - 1);
      LineStep(keycode, n - 1);
    }
  }

  /** The box is tight: holding one key from reset for one frame more than Reach stands one pixel outside the edge
      tested for, and each of the four sides is met this way. */
  lemma BoxIsTight(keycode: nat)
    requires keycode in {KEY_W, KEY_A, KEY_S, KEY_D}
    ensures var r := Run(Holding(keycode, Reach(keycode) + 1));
      && (keycode == KEY_W ==> r.y == 3) && (keycode == KEY_S ==> r.y == 476)
      && (keycode == KEY_A ==> r.x == 3) && (keycode == KEY_D ==> r.x == 636)
  {
    hide *;
    PastLine(keycode);
    HoldingMoves(keycode, Reach(keycode));
    RunHolding(keycode, Reach(keycode));
  }

  // One frame beyond the edge.
  lemma PastLine(keycode: nat)
    requires keycode in {KEY_W, KEY_A, KEY_S, KEY_D}
    ensures 1 <= Reach(keycode)
    ensures var r := Next(Line(keycode, Reach(keycode)), Frame(keycode));
      && (keycode == KEY_W ==> r.y == 3) && (keycode == KEY_S ==> r.y == 476)
      && (keycode == KEY_A ==> r.x == 3) && (keycode == KEY_D ==> r.x == 636)
  {
    hide NextMotion, Next, Inv;
    LineEnds(keycode);
    NextAdds(Line(keycode, Reach(keycode)), keycode);
  }

  lemma LineEnds(keycode: nat)
    requires keycode in {KEY_W, KEY_A, KEY_S, KEY_D}
    ensures 1 <= Reach(keycode)
    ensures Line(keycode, Reach(keycode))
         == if keycode == KEY_W then Regs(320, 4, Motion(0, BACK)) else if keycode == KEY_A then Regs(4, 240, Motion(BACK, 0))
            else if keycode == KEY_S then Regs(320, 475, Motion(0, STEP)) else Regs(635, 240, Motion(STEP, 0))
    ensures Inv(Line(keycode, Reach(keycode))) && Signed(BACK) == -1 && Signed(STEP) == 1 && Signed(0) == 0
  {
    assert BACK == 1023;
    hide Plus;
  }

  lemma NextAdds(r: Regs, keycode: nat)
    requires Inv(r)
    ensures var t := Next(r, Frame(keycode)); t.x == r.x + Signed(r.m.x) && t.y == r.y + Signed(r.m.y)
  {
    hide NextMotion, Inv, Plus, Signed;
    MotionAdds(r);
  }

  /** The registers of the Move_Player block. */
  class Player {
    var playerXPos: Word10
    var playerYPos: Word10
    var playerXMotion: Word10
    var playerYMotion: Word10
    ghost var edges: seq<Edge>

    ghost predicate Valid()
      reads this
    {
      Regs(playerXPos, playerYPos, Motion(playerXMotion, playerYMotion)) == Run(edges)
    }

    constructor ()
      ensures Valid() && edges == []
    {
      playerXPos, playerYPos := X_CENTER, Y_CENTER;
      playerXMotion, playerYMotion := 0, 0;
      edges := [];
    }

    method Clock(e: Edge)
      requires Valid()
      modifies this
      ensures Valid() && edges == old(edges) + [e]
      ensures 3 <= playerXPos <= 636 && 3 <= playerYPos <= 476
      ensures e.Frame? ==> playerXPos == old(playerXPos) + Signed(old(playerXMotion))
      ensures e.Frame? ==> playerYPos == old(playerYPos) + Signed(old(playerYMotion))
    {
      BoxInvariant(edges, if e.Frame? then e.keycode else 0);
      BoxInvariant(edges + [e], 0);
      assert (edges + [e])[..|edges|] == edges;
      match e {
        case Reset =>
          playerYMotion, playerXMotion := 0, 0;
          playerYPos, playerXPos := Y_CENTER, X_CENTER;
        case Frame(k) =>
          var next := NextMotion(Regs(playerXPos, playerYPos, Motion(playerXMotion, playerYMotion)), k);
          playerYMotion, playerXMotion, playerYPos, playerXPos :=
            next.y, next.x, Plus(playerYPos, playerYMotion), Plus(playerXPos, playerXMotion);
      }
      edges := edges + [e];
    }
  }
}
