/**
 * The integer bit operations the converter uses (`&`, `|`, `<<`, `>>`), on
 * non-negative integers. Every value the converter feeds them stays below
 * 2^16, so JavaScript's 32-bit signed semantics never wrap and the
 * unbounded definitions here coincide with it.
 */
module Bits {

  function Pow2(n: nat): (r: nat)
    ensures r >= 1
  {
    if n == 0 then 1 else 2 * Pow2(n - 1)
  }

  /** `x << n`: shifting the result back right by `n` recovers `x`. */
  function Shl(x: nat, n: nat): (r: nat)
    ensures Shr(r, n) == x
  {
    var r := x * Pow2(n);
    ShrIsDiv(r, n);
    DivModUnique(r, Pow2(n), x, 0);
    r
  }

  /** `x >> n` on a non-negative operand: `n` halvings, each dropping the lowest bit. */
  function Shr(x: nat, n: nat): (r: nat)
    ensures r <= x
  {
    if n == 0 then x else Shr(x / 2, n - 1)
  }

  /** Bitwise `a & b`, one binary digit at a time from the least significant. */
  function And(a: nat, b: nat): (r: nat)
    ensures r <= a && r <= b
    decreases a
  {
    if a == 0 || b == 0 then 0
    else 2 * And(a / 2, b / 2) + (if a % 2 == 1 && b % 2 == 1 then 1 else 0)
  }

  /** Bitwise `a | b`, one binary digit at a time from the least significant. */
  function Or(a: nat, b: nat): (r: nat)
    ensures a <= r && b <= r && r <= a + b
    decreases a
  {
    if a == 0 then b
    else if b == 0 then a
    else 2 * Or(a / 2, b / 2) + (if a % 2 == 1 || b % 2 == 1 then 1 else 0)
  }

  predicate IsByte(x: nat)
  {
    x < 256
  }

  predicate IsBytes(s: seq<nat>)
  {
    forall i :: 0 <= i < |s| ==> IsByte(s[i])
  }

  /** `(hi << 8) | lo`: two bytes read as one big-endian 16-bit word. */
  function Combine(hi: nat, lo: nat): (w: nat)
    requires IsByte(hi) && IsByte(lo)
    ensures w < 65536
    ensures w / 256 == hi && w % 256 == lo
  {
    Pow2Values();
    OrLowField(hi, lo, 8);
    DivModUnique(hi * 256 + lo, 256, hi, lo);
    Or(Shl(hi, 8), lo)
  }

  /** `(w >> 8) & 0xFF`: the byte stored first. */
  function HighByte(w: nat): (hi: nat)
    ensures IsByte(hi)
    ensures w < 65536 ==> hi == w / 256
  {
    Pow2Values();
    ShrIsDiv(w, 8);
    AndLowMask(Shr(w, 8), 8);
    assert w < 65536 ==> (w / 256) % 256 == w / 256 by {
      if w < 65536 {
        DivModUnique(w / 256, 256, 0, w / 256);
      }
    }
    And(Shr(w, 8), 0xFF)
  }

  /** `w & 0xFF`: the byte stored second. */
  function LowByte(w: nat): (lo: nat)
    ensures IsByte(lo) && lo == w % 256
  {
    Pow2Values();
    AndLowMask(w, 8);
    And(w, 0xFF)
  }

  /** Writing a word as high byte then low byte and reading it back gives the word. */
  lemma SplitCombine(w: nat)
    requires w < 65536
    ensures Combine(HighByte(w), LowByte(w)) == w
  {
  }

  /** Reading two bytes as a word and splitting it again gives the two bytes. */
  lemma CombineSplit(hi: nat, lo: nat)
    requires IsByte(hi) && IsByte(lo)
    ensures HighByte(Combine(hi, lo)) == hi && LowByte(Combine(hi, lo)) == lo
  {
  }

  // ---------------------------------------------------------------------
  // Arithmetic meaning of the bit operations

  lemma Pow2Values()
    ensures Pow2(2) == 4 && Pow2(3) == 8 && Pow2(5) == 32 && Pow2(6) == 64
    ensures Pow2(8) == 256 && Pow2(11) == 2048
  {
  }

  lemma MulMonotone(b: int, x: int, y: int)
    requires b >= 0 && x <= y
    ensures b * x <= b * y
  {
  }

  /** Quotient and remainder are the only pair with `a == b * q + r` and `0 <= r < b`. */
  lemma DivModUnique(a: int, b: int, q: int, r: int)
    requires b > 0 && 0 <= r < b && a == b * q + r
    ensures a / b == q && a % b == r
  {
    var q', r' := a / b, a % b;
    assert a == b * q' + r';
    if q' < q {
      MulMonotone(b, q' + 1, q);
    } else if q' > q {
      MulMonotone(b, q + 1, q');
    }
  }

  /** Shifting right by `n` divides by 2^n. */
  lemma {:induction false} ShrIsDiv(x: nat, n: nat)
    ensures Shr(x, n) == x / Pow2(n)
    decreases n
  {
    if n > 0 {
      ShrIsDiv(x / 2, n - 1);
      DivDouble(x, Pow2(n - 1));
    }
  }

  /** A field placed above `k` free low bits is or-ed with a value fitting those bits by addition. */
  lemma {:induction false} OrLowField(hi: nat, lo: nat, k: nat)
    requires lo < Pow2(k)
    ensures Or(hi * Pow2(k), lo) == hi * Pow2(k) + lo
    decreases k
  {
    if k > 0 && hi > 0 && lo > 0 {
      var p := Pow2(k - 1);
      assert Pow2(k) == 2 * p;
      OrLowField(hi, lo / 2, k - 1);
      OrLowStep(hi, lo, p);
    }
  }

  lemma OrLowStep(hi: nat, lo: nat, p: nat)
    requires p >= 1 && hi > 0 && 0 < lo < 2 * p
    requires Or(hi * p, lo / 2) == hi * p + lo / 2
    ensures Or(hi * (2 * p), lo) == hi * (2 * p) + lo
  {
    var a := hi * (2 * p);
    Twice(hi, p);
    MulMonotone(hi, 1, p);
    assert a / 2 == hi * p && a % 2 == 0;
    assert Or(a, lo) == 2 * Or(a / 2, lo / 2) + lo % 2;
  }

  /** Halving, then taking the remainder by `p`, is taking the remainder by `2p` one bit down. */
  lemma ModDouble(x: nat, p: nat)
    requires p > 0
    ensures x % (2 * p) == 2 * ((x / 2) % p) + x % 2
  {
    var q := (x / 2) / p;
    var r := (x / 2) % p;
    assert x / 2 == p * q + r;
    assert x == (2 * p) * q + (2 * r + x % 2);
    DivModUnique(x, 2 * p, q, 2 * r + x % 2);
  }

  /** Halving, then dividing by `p`, is dividing by `2p`. */
  lemma DivDouble(x: nat, p: nat)
    requires p > 0
    ensures (x / 2) / p == x / (2 * p)
  {
    var q := (x / 2) / p;
    var r := (x / 2) % p;
    assert x / 2 == p * q + r;
    assert x == (2 * p) * q + (2 * r + x % 2);
    DivModUnique(x, 2 * p, q, 2 * r + x % 2);
  }

  /** `x & (2^k - 1)` keeps the low `k` bits. */
  lemma {:induction false} AndLowMask(x: nat, k: nat)
    ensures And(x, Pow2(k) - 1) == x % Pow2(k)
    decreases k
  {
    if k == 0 {
      DivModUnique(x, 1, x, 0);
    } else if x == 0 {
      DivModUnique(0, Pow2(k), 0, 0);
    } else {
      var p, q := Pow2(k - 1), Pow2(k);
      assert q == 2 * p;
      AndLowMask(x / 2, k - 1);
      AndLowStep(x, p);
      assert And(x, q - 1) == And(x, 2 * p - 1) && x % q == x % (2 * p);
    }
  }

  lemma AndLowStep(x: nat, p: nat)
    requires x > 0 && p >= 1
    requires And(x / 2, p - 1) == (x / 2) % p
    ensures And(x, 2 * p - 1) == x % (2 * p)
  {
    var m := 2 * p - 1;
    OddMaskHalf(p);
    AndOfOddMask(x, m);
    assert And(x / 2, m / 2) == (x / 2) % p;
    ModDouble(x, p);
  }

  lemma OddMaskHalf(p: nat)
    requires p >= 1
    ensures (2 * p - 1) / 2 == p - 1 && (2 * p - 1) % 2 == 1
  {
  }

  /** `x & ((2^m - 1) << k)` keeps the `m` bits starting at bit `k`, in place. */
  lemma {:induction false} AndFieldMask(x: nat, m: nat, k: nat)
    ensures And(x, (Pow2(m) - 1) * Pow2(k)) == (x / Pow2(k)) % Pow2(m) * Pow2(k)
    decreases k
  {
    if k == 0 {
      AndLowMask(x, m);
    } else if m == 0 {
      assert (Pow2(m) - 1) * Pow2(k) == 0;
    } else if x == 0 {
      DivModUnique(0, Pow2(k), 0, 0);
      DivModUnique(0, Pow2(m), 0, 0);
    } else {
      AndFieldMask(x / 2, m, k - 1);
      AndFieldStep(x, Pow2(m) - 1, Pow2(k - 1));
    }
  }

  lemma AndFieldStep(x: nat, top: nat, p: nat)
    requires x != 0 && top >= 1 && p >= 1
    requires And(x / 2, top * p) == ((x / 2) / p) % (top + 1) * p
    ensures And(x, top * (2 * p)) == (x / (2 * p)) % (top + 1) * (2 * p)
  {
    var mask := top * (2 * p);
    Twice(top, p);
    DivModUnique(mask, 2, top * p, 0);
    MulMonotone(2 * p, 1, top);
    AndOfEvenMask(x, mask);
    DivDouble(x, p);
    var f := (x / 2) / p % (top + 1);
    assert And(x, mask) == 2 * (f * p);
    Twice(f, p);
  }

  lemma Twice(a: int, b: int)
    ensures a * (2 * b) == 2 * (a * b)
  {
  }

  lemma AndOfOddMask(x: nat, mask: nat)
    requires x != 0 && mask % 2 == 1
    ensures And(x, mask) == 2 * And(x / 2, mask / 2) + x % 2
  {
  }

  lemma AndOfEvenMask(x: nat, mask: nat)
    requires x != 0 && mask != 0 && mask % 2 == 0
    ensures And(x, mask) == 2 * And(x / 2, mask / 2)
  {
  }

  /** `b & 0xF8` on a byte clears its low three bits. */
  lemma ClearLow3(b: nat)
    requires IsByte(b)
    ensures And(b, 0xF8) == b / 8 * 8
  {
    assert And(b, 0xF8) == (b / 8) % 32 * 8 by {
      Pow2Values();
      AndFieldMask(b, 5, 3);
    }
    DivModUnique(b / 8, 32, 0, b / 8);
  }

  /** `b & 0xFC` on a byte clears its low two bits. */
  lemma ClearLow2(b: nat)
    requires IsByte(b)
    ensures And(b, 0xFC) == b / 4 * 4
  {
    assert And(b, 0xFC) == (b / 4) % 64 * 4 by {
      Pow2Values();
      AndFieldMask(b, 6, 2);
    }
    DivModUnique(b / 4, 64, 0, b / 4);
  }
}
