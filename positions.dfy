/**
 * Integer coordinates with the wrap-around arithmetic of the square board
 * (src/classes/Position.ts), and the four directions the snake moves in.
 */
module Positions {

  /** The four directions of the game (the enumeration's own file is not part of this model). */
  datatype Direction = Up | Down | Left | Right

  /** The direction that undoes one step in `d`. */
  function Reverse(d: Direction): (r: Direction)
    ensures r != d
    ensures (d == Up || d == Down) <==> (r == Up || r == Down)
  {
    match d
    case Up => Down
    case Down => Up
    case Left => Right
    case Right => Left
  }

  datatype Position = Position(x: int, y: int)

  function Abs(a: int): nat
  {
    if a < 0 then -a else a
  }

  predicate InBounds(p: Position, n: int)
  {
    0 <= p.x < n && 0 <= p.y < n
  }

  // ---------------------------------------------------------------------
  // Euclidean division facts used below (Dafny's `/` and `%` are Euclidean)
  // ---------------------------------------------------------------------

  lemma DivModUnique(a: int, n: int, q: int, r: int)
    requires n > 0 && 0 <= r < n && a == q * n + r
    ensures a / n == q && a % n == r
  {
    var q', r' := a / n, a % n;
    assert a == q' * n + r';
    if q' < q {
      assert (q - q') * n >= n by { MulAtLeast(q - q', n); }
      assert false;
    } else if q < q' {
      assert (q' - q) * n >= n by { MulAtLeast(q' - q, n); }
      assert false;
    }
  }

  lemma MulAtLeast(k: int, n: int)
    requires k >= 1 && n > 0
    ensures k * n >= n
  {
  }

  lemma SmallMod(a: int, n: int)
    requires n > 0
    ensures 0 <= a < n ==> a % n == a
  {
    if 0 <= a < n { DivModUnique(a, n, 0, a); }
  }

  /** Adding a multiple of `n` does not change the remainder. */
  lemma ModShift(a: int, m: int, n: int)
    requires n > 0
    ensures (a + m * n) % n == a % n
  {
    assert a + m * n == (a / n + m) * n + a % n;
    DivModUnique(a + m * n, n, a / n + m, a % n);
  }

  /** Congruent numbers stay congruent after adding the same amount. */
  lemma ModAdd(a: int, b: int, c: int, n: int)
    requires n > 0 && a % n == b % n
    ensures (a + c) % n == (b + c) % n
  {
    var r := a % n;
    assert a + c == (r + c) + (a / n) * n;
    assert b + c == (r + c) + (b / n) * n;
    ModShift(r + c, a / n, n);
    ModShift(r + c, b / n, n);
  }

  // ---------------------------------------------------------------------
  // Position.trimCoordinate, trim, to
  // ---------------------------------------------------------------------

  /**
   * JavaScript's `%` on integral numbers, for a positive divisor: the quotient
   * is truncated toward zero, so the remainder keeps the sign of the dividend.
   */
  function JsRem(a: int, n: int): (r: int)
    requires n > 0
    ensures Abs(r) < n
    ensures a >= 0 ==> r >= 0
    ensures a <= 0 ==> r <= 0
    ensures r % n == a % n
  {
    if a < 0 then
      NegRem(-a, n);
      -((-a) % n)
    else
      SmallMod(a % n, n);
      a % n
  }

  /** Negating a remainder keeps it congruent to the negated dividend. */
  lemma NegRem(t: int, n: int)
    requires n > 0
    ensures (-(t % n)) % n == (-t) % n
  {
    var q, m := t / n, t % n;
    assert -t == -m + (-q) * n;
    ModShift(-m, -q, n);
  }

  /**
   * `trimCoordinate(x, n)`: the source's `(n + (x % n)) % n`. For every
   * integer `x` it is the mathematical residue of `x` modulo `n`: it lies in
   * `[0, n)`, is congruent to `x`, and leaves `[0, n)` unchanged.
   */
  function TrimCoordinate(x: int, n: int): (r: int)
    requires n > 0
    ensures 0 <= r < n
    ensures r == x % n
    ensures 0 <= x < n ==> r == x
  {
    var s := JsRem(x, n);
    ModShift(s, 1, n);
    SmallMod(x, n);
    JsRem(n + s, n)
  }

  /** Stepping off an edge and trimming re-enters on the opposite edge. */
  lemma {:induction false} WrapAround(n: int)
    requires n > 0
    ensures TrimCoordinate(-1, n) == n - 1
    ensures TrimCoordinate(n, n) == 0
  {
    DivModUnique(-1, n, -1, n - 1);
    DivModUnique(n, n, 1, 0);
  }

  /** Reducing before adding does not change the remainder of the sum. */
  lemma ModOfModAdd(x: int, c: int, n: int)
    requires n > 0
    ensures (x % n + c) % n == (x + c) % n
  {
    SmallMod(x % n, n);
    ModAdd(x % n, x, c, n);
  }

  /** Trimming then shifting then trimming is shifting then trimming. */
  lemma TrimShift(x: int, c: int, n: int)
    requires n > 0
    ensures TrimCoordinate(TrimCoordinate(x, n) + c, n) == TrimCoordinate(x + c, n)
  {
    ModOfModAdd(x, c, n);
  }

  /** `trim(n)`: both coordinates reduced into `[0, n)`; the identity on the board, hence idempotent. */
  function Trim(p: Position, n: int): (r: Position)
    requires n > 0
    ensures InBounds(r, n)
    ensures r.x == p.x % n && r.y == p.y % n
    ensures InBounds(p, n) ==> r == p
  {
    Position(TrimCoordinate(p.x, n), TrimCoordinate(p.y, n))
  }

  /** `to(direction)`: the untrimmed neighbour; UP is y-1, DOWN y+1, RIGHT x+1, LEFT x-1. */
  function To(p: Position, d: Direction): (r: Position)
    ensures Abs(r.x - p.x) + Abs(r.y - p.y) == 1
    ensures (d == Up || d == Down) <==> r.x == p.x
    ensures (d == Down || d == Right) <==> r.x + r.y == p.x + p.y + 1
  {
    match d
    case Up => Position(p.x, p.y - 1)
    case Down => Position(p.x, p.y + 1)
    case Right => Position(p.x + 1, p.y)
    case Left => Position(p.x - 1, p.y)
  }

  /** The neighbour of a board cell on the n-by-n torus, with the edges written out. */
  function Neighbour(p: Position, d: Direction, n: int): Position
  {
    match d
    case Up => Position(p.x, if p.y == 0 then n - 1 else p.y - 1)
    case Down => Position(p.x, if p.y == n - 1 then 0 else p.y + 1)
    case Left => Position(if p.x == 0 then n - 1 else p.x - 1, p.y)
    case Right => Position(if p.x == n - 1 then 0 else p.x + 1, p.y)
  }

  /** On the board, `to(d).trim(n)` is the torus neighbour: moving off an edge enters at the opposite one. */
  lemma {:induction false} StepWraps(p: Position, d: Direction, n: int)
    requires n > 0 && InBounds(p, n)
    ensures Trim(To(p, d), n) == Neighbour(p, d, n)
  {
    var q := To(p, d);
    if q.x == -1 || q.y == -1 { DivModUnique(-1, n, -1, n - 1); }
    if q.x == n || q.y == n { DivModUnique(n, n, 1, 0); }
  }

  /** Trimming before a step does not change the trimmed result. */
  lemma TrimTo(p: Position, d: Direction, n: int)
    requires n > 0
    ensures Trim(To(Trim(p, n), d), n) == Trim(To(p, d), n)
  {
    var q, s := Trim(p, n), To(p, d);
    assert To(q, d) == Position(q.x + (s.x - p.x), q.y + (s.y - p.y));
    ModOfModAdd(p.x, s.x - p.x, n);
    ModOfModAdd(p.y, s.y - p.y, n);
  }

  /** A step followed by the reverse step returns to the start, also on the torus. */
  lemma {:induction false} StepBack(p: Position, d: Direction, n: int)
    requires n > 0
    ensures To(To(p, d), Reverse(d)) == p
    ensures Trim(To(Trim(To(p, d), n), Reverse(d)), n) == Trim(p, n)
  {
    TrimTo(To(p, d), Reverse(d), n);
  }

  // ---------------------------------------------------------------------
  // Position.toString and isEqual
  // ---------------------------------------------------------------------

  function DigitChar(d: int): (c: char)
    requires 0 <= d < 10
    ensures '0' <= c <= '9'
  {
    ('0' as int + d) as char
  }

  /** The decimal numeral of `i`, as JavaScript prints an integral number: a minus sign, then digits. */
  function IntToString(i: int): (s: string)
    ensures |s| > 0
    ensures s[0] == '-' <==> i < 0
    ensures s[0] == '-' || '0' <= s[0] <= '9'
    ensures forall k :: 0 < k < |s| ==> '0' <= s[k] <= '9'
    decreases if i < 0 then 1 - i else i
  {
    if i < 0 then "-" + IntToString(-i)
    else if i < 10 then [DigitChar(i)]
    else IntToString(i / 10) + [DigitChar(i % 10)]
  }

  /** Different numbers print differently. */
  lemma {:induction false} IntToStringInjective(a: int, b: int)
    ensures IntToString(a) == IntToString(b) <==> a == b
    decreases if a < 0 then 1 - a else a
  {
    var s := IntToString(a);
    if s == IntToString(b) {
      if a < 0 && b < 0 {
        assert IntToString(-a) == s[1..] == IntToString(-b);
        IntToStringInjective(-a, -b);
      } else if 0 <= a < 10 && 0 <= b < 10 {
        assert s[0] == DigitChar(a) == DigitChar(b);
      } else if a >= 10 && b >= 10 {
        var sa, sb := IntToString(a / 10), IntToString(b / 10);
        assert s == sa + [DigitChar(a % 10)] == sb + [DigitChar(b % 10)];
        assert |sa| == |sb|;
        assert sa == s[..|sa|] == sb;
        assert s[|sa|] == DigitChar(a % 10) == DigitChar(b % 10);
        IntToStringInjective(a / 10, b / 10);
      }
    }
  }

  /** `toString()`: the key `(x|y)` under which a position is stored in the board's object map. */
  function Key(p: Position): (s: string)
    ensures |s| >= 5 && s[0] == '(' && s[|s| - 1] == ')'
    ensures '|' in s
  {
    "(" + IntToString(p.x) + "|" + IntToString(p.y) + ")"
  }

  /** Two positions share a key exactly when they are the same position. */
  lemma KeyInjective(p: Position, q: Position)
    ensures Key(p) == Key(q) <==> p == q
  {
    if Key(p) == Key(q) {
      var a, b := IntToString(p.x), IntToString(p.y);
      var c, d := IntToString(q.x), IntToString(q.y);
      var s := Key(p);
      assert s == "(" + a + "|" + b + ")";
      assert Key(q) == "(" + c + "|" + d + ")";
      assert s[1 + |a|] == '|';
      assert s[1 + |c|] == '|';
      assert |a| == |c|;
      assert a == s[1..1 + |a|] == c;
      assert b == s[2 + |a|..|s| - 1] == d;
      IntToStringInjective(p.x, q.x);
      IntToStringInjective(p.y, q.y);
    }
  }

  lemma KeysInjective()
    ensures forall p, q :: Key(p) == Key(q) ==> p == q
  {
    forall p, q ensures Key(p) == Key(q) ==> p == q {
      KeyInjective(p, q);
    }
  }

  /** `isEqual(pos)`: structural equality, which is equality of positions (reflexive and symmetric). */
  function IsEqual(p: Position, q: Position): (r: bool)
    ensures r <==> p == q
  {
    p.x == q.x && p.y == q.y
  }
}
