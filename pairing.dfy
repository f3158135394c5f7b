/** `coordsToInt`: the explorer files the cells it has seen in a flat
    array, so it numbers every pair of signed coordinates with its own
    natural number. The absolute values are paired in Cantor's way, and the
    quadrant of the cell is kept in the two low bits. */
module Pairing {
  import opened Mazelib

  /** `1 + 2 + ... + n`. */
  function Tri(n: nat): nat {
    if n == 0 then 0 else Tri(n - 1) + n
  }

  /** The quadrant tag: 1 when x >= 0 > y, 2 when x < 0 <= y, 3 when both
      are non-negative and 0 when both are negative. */
  function Quadrant(x: int, y: int): int {
    if x >= 0 && y < 0 then 1
    else if x < 0 && y >= 0 then 2
    else if x >= 0 && y >= 0 then 3
    else 0
  }

  /** The number `coordsToInt` gives the cell (x, y). */
  function Key(x: int, y: int): nat {
    4 * (Tri(Abs(x) + Abs(y)) + Abs(y)) + Quadrant(x, y)
  }

  /** `coordsToInt`: sums `1 .. |x| + |y|` in a loop, adds `|y|`, multiplies
      by four and adds the quadrant tag. */
  method CoordsToInt(x: int, y: int) returns (z: int)
    ensures z == Key(x, y)
  {
    z := 0;
    var s := Abs(x) + Abs(y);
    var k := 1;
    while k <= s
      invariant 1 <= k <= s + 1
      invariant z == Tri(k - 1)
    {
      z := z + k;
      k := k + 1;
    }
    z := z + Abs(y);
    z := z * 4;
    if x >= 0 && y < 0 {
      z := z + 1;
    } else if x < 0 && y >= 0 {
      z := z + 2;
    } else if x >= 0 && y >= 0 {
      z := z + 3;
    }
  }

  /** The explorer's starting cell (0, 0) is filed under 3. */
  lemma OriginKey()
    ensures Key(0, 0) == 3
  {
  }

  /** A later diagonal of Cantor's table starts after the whole of an
      earlier one. */
  lemma {:induction false} TriGap(s: nat, s': nat)
    requires s < s'
    ensures Tri(s) + s < Tri(s')
  {
    if s' > s + 1 {
      TriGap(s, s' - 1);
    }
  }

  /** Cantor's pairing: entry `a` of diagonal `s` is numbered `Tri(s) + a`,
      and no two entries share a number. */
  lemma CantorUnique(s: nat, a: nat, s': nat, a': nat)
    requires a <= s && a' <= s'
    requires Tri(s) + a == Tri(s') + a'
    ensures s == s' && a == a'
  {
    if s < s' {
      TriGap(s, s');
    } else if s' < s {
      TriGap(s', s);
    }
  }

  /** `coordsToInt` gives different cells different numbers. */
  lemma KeyInjective(x: int, y: int, x': int, y': int)
    requires Key(x, y) == Key(x', y')
    ensures x == x' && y == y'
  {
    var t := Tri(Abs(x) + Abs(y)) + Abs(y);
    var t' := Tri(Abs(x') + Abs(y')) + Abs(y');
    assert t == t' && Quadrant(x, y) == Quadrant(x', y') by {
      assert 4 * t + Quadrant(x, y) == 4 * t' + Quadrant(x', y');
    }
    CantorUnique(Abs(x) + Abs(y), Abs(y), Abs(x') + Abs(y'), Abs(y'));
  }
}
