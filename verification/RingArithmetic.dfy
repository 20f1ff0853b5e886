/** Identifier-ring arithmetic on 32-bit unsigned values (vrr_data.c). */
module RingArithmetic {
  import opened Types

  /** Unsigned subtraction with wrap-around. */
  function Sub32(x: u32, y: u32): u32 {
    if x >= y then x - y else x - y + UINT_MAX + 1
  }

  /** get_diff: the smaller of the two wrapped differences. */
  function GetDiff(x: u32, y: u32): u32 {
    var i := Sub32(x, y);
    var j := Sub32(y, x);
    if i < j then i else j
  }

  function DiffLeft(me: u32, node: u32): u32 {
    if node > me then UINT_MAX - GetDiff(node, me) else GetDiff(node, me)
  }

  function DiffRight(me: u32, node: u32): u32 {
    if node < me then UINT_MAX - GetDiff(node, me) else GetDiff(node, me)
  }

  /** The identifier reached from x by d unit steps around the ring. */
  function Advance(x: u32, d: nat): u32 {
    (x + d) % (UINT_MAX + 1)
  }

  /** GetDiff is the arc length between two points of a ring of 2^32 points: that many unit
      steps, in one of the two directions, lead from one to the other, and fewer do not. */
  lemma DiffIsArcLength(x: u32, y: u32)
    ensures GetDiff(x, y) <= 0x8000_0000
    ensures Advance(x, GetDiff(x, y)) == y || Advance(y, GetDiff(x, y)) == x
    ensures forall d: nat | d < GetDiff(x, y) :: Advance(x, d) != y && Advance(y, d) != x
  {
  }

  /** get_diff is a metric on identifiers. */
  lemma DiffIsMetric(x: u32, y: u32, z: u32)
    ensures GetDiff(x, y) == GetDiff(y, x)
    ensures GetDiff(x, y) == 0 <==> x == y
    ensures GetDiff(x, z) <= GetDiff(x, y) + GetDiff(y, z)
  {
  }

  /** The two directed differences of a foreign node are complementary, and the one on its side of ME
      is the arc length. For ME itself both are 0. */
  lemma DiffsAreComplementary(me: u32, node: u32)
    ensures node > me ==> DiffRight(me, node) == GetDiff(me, node)
    ensures node < me ==> DiffLeft(me, node) == GetDiff(me, node)
    ensures DiffLeft(me, node) + DiffRight(me, node) == if node == me then 0 else UINT_MAX
  {
  }
}
