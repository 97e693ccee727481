/** Network prefixes by bit masks, for any address width
    (libnetwork-daemon/src/ip.rs). IPv4 is width 32 and IPv6 is width 128. */
module Cidr {
  import opened Prelude

  const V4_WIDTH := 32
  const V6_WIDTH := 128

  // ----------------------------------------------------------- machine operations

  /** Bitwise conjunction of two words of `w` bits. */
  function And(w: nat, a: nat, b: nat): nat {
    if w == 0 then 0
    else 2 * And(w - 1, a / 2, b / 2) + (if a % 2 == 1 && b % 2 == 1 then 1 else 0)
  }

  /** `checked_shl(k)` of a word, `None` when every bit would be shifted out. */
  function CheckedShl(w: nat, a: nat, k: nat): Option<nat> {
    if k >= w then None else Some(a * Pow2(k) % Pow2(w))
  }

  function AllOnes(w: nat): nat {
    Pow2(w) - 1
  }

  function Mask(w: nat, prefix: nat): nat
    requires prefix <= w
  {
    var shifted := CheckedShl(w, AllOnes(w), w - prefix);
    if shifted.Some? then shifted.value else 0
  }

  function NetId(w: nat, a: nat, prefix: nat): nat
    requires prefix <= w
  {
    And(w, a, Mask(w, prefix))
  }

  /** The number of ones at the top of a word. */
  function LeadingOnes(w: nat, a: nat): (n: nat)
    ensures n <= w
  {
    if w == 0 || a / Pow2(w - 1) % 2 == 0 then 0 else 1 + LeadingOnes(w - 1, a % Pow2(w - 1))
  }

  /** Bit `i`, counted from the top, of a word. */
  function TopBit(w: nat, a: nat, i: nat): nat
    requires i < w
  {
    a / Pow2(w - 1 - i) % 2
  }

  // ----------------------------------------------------------- what the mask is

  /** A mask is all ones but for the host bits. */
  lemma MaskIs(w: nat, prefix: nat)
    requires prefix <= w
    ensures Mask(w, prefix) == Pow2(w) - Pow2(w - prefix)
    ensures Pow2(w - prefix) <= Pow2(w)
  {
    var p := Pow2(w - prefix);
    Pow2Sum(w - prefix, prefix);
    Multiple(Pow2(prefix), p);
    if prefix > 0 {
      ShiftedOnes(p, Pow2(w));
    }
  }

  /** All ones shifted left: the carry is all ones, the rest the high ones. */
  lemma ShiftedOnes(p: nat, m: nat)
    requires 0 < p <= m
    ensures (m - 1) * p % m == m - p
  {
    assert (m - 1) * p == (p - 1) * m + (m - p) by {
      assert (m - 1) * p == m * p - p;
      assert (p - 1) * m == p * m - m;
    }
    ModOf(p - 1, m, m - p);
  }

  lemma ModOf(q: nat, m: nat, r: nat)
    requires r < m
    ensures (q * m + r) % m == r
    ensures (q * m + r) / m == q
  {
    var n := q * m + r;
    DivModUnique(m, n / m, n % m, q, r);
  }

  lemma DivModUnique(m: int, q: int, r: int, q': int, r': int)
    requires 0 <= r < m && 0 <= r' < m
    requires q * m + r == q' * m + r'
    ensures q == q' && r == r'
  {
    var d := q - q';
    assert d * m == r' - r by {
      assert (q - q') * m == q * m - q' * m;
    }
    if d >= 1 {
      Multiple(d, m);
    } else if d <= -1 {
      Multiple(-d, m);
    }
  }

  lemma Multiple(d: int, m: int)
    requires d >= 1 && m >= 0
    ensures d * m >= m
    ensures -d * m <= -m
  {
  }

  lemma {:induction false} AndAllOnes(w: nat, a: nat)
    requires a < Pow2(w)
    ensures And(w, a, AllOnes(w)) == a
  {
    if w > 0 {
      assert AllOnes(w) == 2 * AllOnes(w - 1) + 1;
      assert AllOnes(w) / 2 == AllOnes(w - 1) && AllOnes(w) % 2 == 1;
      AndAllOnes(w - 1, a / 2);
    }
  }

  /** Halving both sides of a remainder by a power of two. */
  lemma ModHalf(a: nat, k: nat)
    requires k > 0
    ensures a % Pow2(k) == 2 * (a / 2 % Pow2(k - 1)) + a % 2
  {
    var m := Pow2(k - 1);
    var (q, r) := (a / 2 / m, a / 2 % m);
    assert a / 2 == q * m + r;
    assert a == 2 * (q * m + r) + a % 2;
    assert a == q * (2 * m) + (2 * r + a % 2) by {
      assert 2 * (q * m) == q * (2 * m);
    }
    ModOf(q, 2 * m, 2 * r + a % 2);
  }

  lemma {:induction false} AndHighOnes(w: nat, a: nat, k: nat)
    requires k <= w && a < Pow2(w)
    ensures Pow2(k) <= Pow2(w)
    ensures And(w, a, Pow2(w) - Pow2(k)) == a - a % Pow2(k)
  {
    if k == 0 {
      AndAllOnes(w, a);
    } else {
      AndHighOnes(w - 1, a / 2, k - 1);
      var (m, h) := (Pow2(w) - Pow2(k), Pow2(w - 1) - Pow2(k - 1));
      assert m == 2 * h;
      assert m / 2 == h && m % 2 == 0;
      ModHalf(a, k);
    }
  }

  // ------------------------------------------------------------------ the results

  /** Masking drops exactly the host part. */
  lemma NetIdIs(w: nat, a: nat, prefix: nat)
    requires prefix <= w && a < Pow2(w)
    ensures NetId(w, a, prefix) == a - a % Pow2(w - prefix)
    ensures NetId(w, a, prefix) <= a
  {
    MaskIs(w, prefix);
    AndHighOnes(w, a, w - prefix);
  }

  /** `a` rounded down to a multiple of `m`. */
  function Floor(a: nat, m: nat): nat
    requires m > 0
  {
    a / m * m
  }

  lemma MultipleOf(q: nat, m: nat)
    requires m > 0
    ensures q * m / m == q
  {
    ModOf(q, m, 0);
  }

  lemma Distribute(x: int, y: int, z: int)
    ensures (x + y) * z == x * z + y * z
  {
  }

  lemma Associate(x: int, y: int, z: int)
    ensures x * y * z == x * (y * z)
  {
  }

  lemma DivMod(a: nat, m: nat)
    requires m > 0
    ensures a == a / m * m + a % m && 0 <= a % m < m
  {
  }

  /** Rest below a product of bounds. */
  lemma Below(u: nat, t: nat, v: nat, s: nat)
    requires u < t && v < s
    ensures u * s + v < t * s
  {
    Distribute(u, 1, s);
    Distribute(u + 1, t - u - 1, s);
    if t - u - 1 >= 1 {
      Multiple(t - u - 1, s);
    }
  }

  lemma DivDiv(a: nat, s: nat, t: nat)
    requires s > 0 && t > 0
    ensures s * t > 0 && a / s / t == a / (s * t)
  {
    Multiple(s, t);
    var (n, v) := (a / s, a % s);
    var (c, u) := (n / t, n % t);
    DivMod(a, s);
    DivMod(n, t);
    Distribute(c * t, u, s);
    Associate(c, t, s);
    Below(u, t, v, s);
    assert t * s == s * t;
    ModOf(c, s * t, u * s + v);
  }

  lemma FloorNested(a: nat, s: nat, t: nat)
    requires s > 0 && t > 0
    ensures s * t > 0
    ensures Floor(Floor(a, s), s * t) == Floor(a, s * t)
    ensures Floor(Floor(a, s * t), s) == Floor(a, s * t)
  {
    DivDiv(a, s, t);
    var (n, c) := (a / s, a / (s * t));
    DivDiv(n * s, s, t);
    MultipleOf(n, s);
    assert c * (s * t) == c * t * s;
    MultipleOf(c * t, s);
  }

  lemma NetIdFloor(w: nat, a: nat, prefix: nat)
    requires prefix <= w && a < Pow2(w)
    ensures NetId(w, a, prefix) == Floor(a, Pow2(w - prefix))
  {
    NetIdIs(w, a, prefix);
    DivMod(a, Pow2(w - prefix));
  }

  /** Masking twice is masking with the shorter prefix, whichever comes
      first; masking again changes nothing. */
  lemma NetIdNested(w: nat, a: nat, p: nat, q: nat)
    requires p <= q <= w && a < Pow2(w)
    ensures NetId(w, NetId(w, a, q), p) == NetId(w, a, p)
    ensures NetId(w, NetId(w, a, p), q) == NetId(w, a, p)
  {
    NetIdIs(w, a, p);
    NetIdIs(w, a, q);
    var (byP, byQ) := (NetId(w, a, p), NetId(w, a, q));
    NetIdFloor(w, a, p);
    NetIdFloor(w, a, q);
    NetIdFloor(w, byQ, p);
    NetIdFloor(w, byP, q);
    Pow2Sum(w - q, q - p);
    FloorNested(a, Pow2(w - q), Pow2(q - p));
  }

  lemma NetIdIdempotent(w: nat, a: nat, p: nat)
    requires p <= w && a < Pow2(w)
    ensures NetId(w, NetId(w, a, p), p) == NetId(w, a, p)
  {
    NetIdNested(w, a, p, p);
  }

  /** Two addresses are in the same network exactly when they share the first
      bits. */
  lemma SameNetworkIff(w: nat, a: nat, b: nat, prefix: nat)
    requires prefix <= w && a < Pow2(w) && b < Pow2(w)
    ensures NetId(w, a, prefix) == NetId(w, b, prefix) <==>
            forall i: nat :: i < prefix ==> TopBit(w, a, i) == TopBit(w, b, i)
  {
    var m := Pow2(w - prefix);
    NetIdFloor(w, a, prefix);
    NetIdFloor(w, b, prefix);
    MultipleOf(a / m, m);
    MultipleOf(b / m, m);
    QuotientBits(w, a, b, prefix);
  }

  lemma {:induction false} QuotientBits(w: nat, a: nat, b: nat, prefix: nat)
    requires prefix <= w && a < Pow2(w) && b < Pow2(w)
    ensures a / Pow2(w - prefix) == b / Pow2(w - prefix) <==>
            forall i: nat :: i < prefix ==> TopBit(w, a, i) == TopBit(w, b, i)
  {
    if prefix > 0 {
      var (m, n) := (Pow2(w - prefix), Pow2(w - (prefix - 1)));
      QuotientBits(w, a, b, prefix - 1);
      assert n == 2 * m;
      DivDouble(a, m);
      DivDouble(b, m);
      assert TopBit(w, a, prefix - 1) == a / m % 2;
      assert TopBit(w, b, prefix - 1) == b / m % 2;
    } else {
      DivSmall(a, Pow2(w));
      DivSmall(b, Pow2(w));
    }
  }

  lemma DivSmall(a: nat, m: nat)
    requires a < m
    ensures a / m == 0
  {
  }

  lemma DivDouble(a: nat, m: nat)
    requires m > 0
    ensures a / (2 * m) == a / m / 2
  {
    DivDiv(a, m, 2);
  }

  /** The leading ones of a contiguous mask are its prefix length. */
  lemma {:induction false} LeadingOnesOfMask(w: nat, prefix: nat)
    requires prefix <= w
    ensures LeadingOnes(w, Mask(w, prefix)) == prefix
  {
    MaskIs(w, prefix);
    HighOnes(w, prefix);
  }

  lemma {:induction false} HighOnes(w: nat, prefix: nat)
    requires prefix <= w
    ensures Pow2(w - prefix) <= Pow2(w)
    ensures LeadingOnes(w, Pow2(w) - Pow2(w - prefix)) == prefix
  {
    if prefix > 0 {
      HighOnes(w - 1, prefix - 1);
      OneMoreOne(w, Pow2(w - 1) - Pow2(w - prefix));
    }
  }

  /** A one in front of a shorter word. */
  lemma OneMoreOne(w: nat, r: nat)
    requires w > 0 && r < Pow2(w - 1)
    ensures LeadingOnes(w, Pow2(w - 1) + r) == 1 + LeadingOnes(w - 1, r)
  {
    ModOf(1, Pow2(w - 1), r);
  }

  /** An even multiple in front changes no bit. */
  lemma EvenInFront(q: nat, m: nat, r: nat)
    requires m > 0
    ensures (2 * q * m + r) / m % 2 == r / m % 2
  {
    DivMod(r, m);
    var x := r / m;
    Distribute(2 * q, x, m);
    ModOf(2 * q + x, m, r % m);
    assert (2 * q + x) % 2 == x % 2;
  }

  lemma EvenMultiple(q: nat, t: nat, m: nat)
    ensures q * (2 * t * m) == 2 * (q * t) * m
  {
    Associate(q, 2 * t, m);
    Associate(q, 2, t);
    assert q * (2 * t) == 2 * (q * t);
  }

  lemma RemainderBit(a: nat, h: nat, q: nat, r: nat, t: nat, m: nat)
    requires m > 0 && h == 2 * t * m && a == q * h + r
    ensures a / m % 2 == r / m % 2
  {
    EvenMultiple(q, t, m);
    EvenInFront(q * t, m, r);
  }

  lemma HalfPower(w: nat, i: nat)
    requires i + 1 < w
    ensures Pow2(w - 1) == 2 * Pow2(i) * Pow2(w - 2 - i)
  {
    Pow2Sum(i + 1, w - 2 - i);
  }

  /** Without its top bit a word keeps the others. */
  lemma LowerBit(w: nat, a: nat, i: nat, q: nat, r: nat)
    requires i + 1 < w && a == q * Pow2(w - 1) + r
    ensures TopBit(w, a, i + 1) == TopBit(w - 1, r, i)
  {
    HalfPower(w, i);
    RemainderBit(a, Pow2(w - 1), q, r, Pow2(i), Pow2(w - 2 - i));
  }

  lemma Parts(a: nat, m: nat) returns (q: nat, r: nat)
    requires m > 0
    ensures q == a / m && r == a % m && a == q * m + r
  {
    q, r := a / m, a % m;
    DivMod(a, m);
  }

  lemma TopStep(w: nat, a: nat, h: nat, q: nat, r: nat, n: nat)
    requires w > 0 && h == Pow2(w - 1) && q == a / h && r == a % h && n == LeadingOnes(w, a)
    ensures n == if q % 2 == 0 then 0 else 1 + LeadingOnes(w - 1, r)
    ensures TopBit(w, a, 0) == q % 2
  {
  }

  /** The leading ones of any word: ones up to the first zero. */
  lemma {:induction false} LeadingOnesAre(w: nat, a: nat, n: nat)
    requires n == LeadingOnes(w, a)
    ensures forall i: nat :: i < n ==> TopBit(w, a, i) == 1
    ensures n < w ==> TopBit(w, a, n) == 0
  {
    if w > 0 {
      var q, r := Parts(a, Pow2(w - 1));
      TopStep(w, a, Pow2(w - 1), q, r, n);
      LeadingOnesAre(w - 1, r, LeadingOnes(w - 1, r));
      OnesInFront(w, a, w - 1, q, r);
    }
  }

  lemma OnesInFront(w: nat, a: nat, v: nat, q: nat, r: nat)
    requires w == v + 1 && a == q * Pow2(v) + r && TopBit(w, a, 0) == q % 2
    requires forall i: nat :: i < LeadingOnes(v, r) ==> TopBit(v, r, i) == 1
    requires LeadingOnes(v, r) < v ==> TopBit(v, r, LeadingOnes(v, r)) == 0
    ensures var n := if q % 2 == 0 then 0 else 1 + LeadingOnes(v, r);
            (forall i: nat :: i < n ==> TopBit(w, a, i) == 1) && (n < w ==> TopBit(w, a, n) == 0)
  {
    var n := LeadingOnes(v, r);
    forall i: nat | 0 < i <= n ensures TopBit(w, a, i) == 1 {
      LowerBit(w, a, i - 1, q, r);
    }
    if n < v {
      LowerBit(w, a, n, q, r);
    }
  }

  /** A mask with a gap is not recovered: only contiguous masks survive the
      conversion to a prefix length and back. */
  lemma MaskRecoveredIff(w: nat, m: nat)
    requires m < Pow2(w)
    ensures Mask(w, LeadingOnes(w, m)) == m <==> exists p: nat :: p <= w && m == Mask(w, p)
  {
    if p: nat :| p <= w && m == Mask(w, p) {
      LeadingOnesOfMask(w, p);
    }
  }
}
