/**
 * Positional number systems. `math/big` values are unbounded naturals here; the codecs of the
 * wallet move between such a value, its big-endian bytes and its base-2048 digits.
 */
module Numbers {
  import opened Common

  function Pow(base: nat, e: nat): nat {
    if e == 0 then 1 else base * Pow(base, e - 1)
  }

  lemma {:induction false} PowPositive(base: nat, e: nat)
    requires base > 0
    ensures Pow(base, e) > 0
  {
    if e > 0 { PowPositive(base, e - 1); }
  }

  lemma MulAssoc(a: int, b: int, c: int)
    ensures a * (b * c) == (a * b) * c
  {
  }

  lemma {:induction false} PowAdd(base: nat, a: nat, b: nat)
    ensures Pow(base, a + b) == Pow(base, a) * Pow(base, b)
  {
    if a > 0 {
      PowAdd(base, a - 1, b);
      assert Pow(base, a + b) == base * Pow(base, a - 1 + b);
      MulAssoc(base, Pow(base, a - 1), Pow(base, b));
    }
  }

  lemma {:induction false} PowPow(base: nat, a: nat, b: nat)
    ensures Pow(Pow(base, a), b) == Pow(base, a * b)
  {
    if b > 0 {
      PowPow(base, a, b - 1);
      PowAdd(base, a, a * (b - 1));
      assert a * b == a + a * (b - 1);
    }
  }

  /** A quotient and a remainder below the divisor determine the value, and the other way round. */
  lemma DivModUnique(q: int, r: int, d: int)
    requires 0 <= r < d
    ensures (q * d + r) / d == q && (q * d + r) % d == r
  {
    var n := q * d + r;
    var diff := q - n / d;
    assert diff * d == n % d - r by {
      assert n == d * (n / d) + n % d;
      assert q * d - (n / d) * d == diff * d;
    }
    MulMono(1, diff, d);
    MulMono(diff, -1, d);
  }

  lemma MulMono(a: int, b: int, c: int)
    requires c >= 0
    ensures a <= b ==> a * c <= b * c
  {
    assert (b - a) * c == b * c - a * c;
  }

  // ---- big-endian digit strings -------------------------------------------------------------

  predicate ValidDigits(ds: seq<nat>, base: nat) {
    forall i :: 0 <= i < |ds| ==> ds[i] < base
  }

  function Value(ds: seq<nat>, base: nat): nat {
    if |ds| == 0 then 0 else Value(ds[..|ds| - 1], base) * base + ds[|ds| - 1]
  }

  lemma {:induction false} ValueBound(ds: seq<nat>, base: nat)
    requires ValidDigits(ds, base)
    ensures Value(ds, base) < Pow(base, |ds|)
  {
    if |ds| > 0 {
      var front := ds[..|ds| - 1];
      ValueBound(front, base);
      assert (Value(front, base) + 1) * base == Value(front, base) * base + base;
      MulMono(Value(front, base) + 1, Pow(base, |front|), base);
    }
  }

  lemma {:induction false} ValueSnoc(ds: seq<nat>, d: nat, base: nat)
    ensures Value(ds + [d], base) == Value(ds, base) * base + d
  {
    assert (ds + [d])[..|ds|] == ds;
  }

  // ---- big.Int.Bytes, SetBytes and left padding ----------------------------------------------

  /** `big.Int.Bytes`: big-endian, without leading zero bytes. */
  function MinBytes(n: nat): Bytes {
    if n == 0 then [] else MinBytes(n / 256) + [n % 256]
  }

  /** `big.Int.SetBytes`. */
  function BytesValue(bs: Bytes): nat { Value(bs, 256) }

  /** Left padding with zero bytes; a slice already long enough is returned as it is. */
  function Pad(bs: Bytes, length: nat): (r: Bytes)
    ensures |r| == if |bs| >= length then |bs| else length
  {
    if |bs| >= length then bs else seq(length - |bs|, i => 0) + bs
  }

  function FixedBytes(n: nat, width: nat): (r: Bytes)
    ensures |r| == width
  {
    if width == 0 then [] else FixedBytes(n / 256, width - 1) + [n % 256]
  }

  lemma {:induction false} FixedBytesOfValue(bs: Bytes)
    ensures FixedBytes(BytesValue(bs), |bs|) == bs
  {
    if |bs| > 0 {
      var front, last := bs[..|bs| - 1], bs[|bs| - 1];
      FixedBytesOfValue(front);
      assert BytesValue(bs) == BytesValue(front) * 256 + last;
      assert bs == front + [last];
    }
  }

  lemma {:induction false} ValueOfFixedBytes(n: nat, width: nat)
    requires n < Pow(256, width)
    ensures BytesValue(FixedBytes(n, width)) == n
  {
    if width > 0 {
      ValueOfFixedBytes(n / 256, width - 1);
      ValueSnoc(FixedBytes(n / 256, width - 1), n % 256, 256);
    }
  }

  lemma {:induction false} PadSnoc(bs: Bytes, b: Byte, width: nat)
    requires width > 0
    ensures Pad(bs + [b], width) == Pad(bs, width - 1) + [b]
  {
    if |bs| < width - 1 {
      assert (seq(width - 1 - |bs|, i => 0) + bs) + [b] == seq(width - |bs| - 1, i => 0) + (bs + [b]);
    }
  }

  /** Padding the minimal bytes of a number that fits gives its fixed-width form. */
  lemma {:induction false} PadMinBytes(n: nat, width: nat)
    requires n < Pow(256, width)
    ensures Pad(MinBytes(n), width) == FixedBytes(n, width)
  {
    if width == 0 {
    } else {
      PadMinBytes(n / 256, width - 1);
      if n == 0 {
        assert FixedBytes(0, width) == FixedBytes(0, width - 1) + [0];
        assert Pad([], width) == Pad([], width - 1) + [0];
      } else {
        PadSnoc(MinBytes(n / 256), n % 256, width);
      }
    }
  }

  /** Reading the bytes of a number back gives the number. */
  lemma {:induction false} MinBytesValue(n: nat)
    ensures BytesValue(MinBytes(n)) == n
  {
    if n > 0 {
      MinBytesValue(n / 256);
      ValueSnoc(MinBytes(n / 256), n % 256, 256);
    }
  }

  /** A byte string is the padded form of the number it spells. */
  lemma PadBytesValue(bs: Bytes)
    ensures Pad(MinBytes(BytesValue(bs)), |bs|) == bs
    ensures BytesValue(bs) < Pow(256, |bs|)
  {
    ValueBound(bs, 256);
    PadMinBytes(BytesValue(bs), |bs|);
    FixedBytesOfValue(bs);
  }

  /** The padded form of a number spells that number. */
  lemma BytesValuePad(n: nat, width: nat)
    requires n < Pow(256, width)
    ensures BytesValue(Pad(MinBytes(n), width)) == n
    ensures |Pad(MinBytes(n), width)| == width
  {
    PadMinBytes(n, width);
    ValueOfFixedBytes(n, width);
  }

  /** Dividing twice is dividing by the product. */
  lemma DivideTwice(n: nat, d: nat, p: nat)
    requires d > 0 && p > 0
    ensures d * p > 0 && n / d / p == n / (d * p)
  {
    var m, rest := n / d, n % d;
    var q, r := m / p, m % p;
    MulMono(1, p, d);
    MulMono(r + 1, p, d);
    MulMono(0, r, d);
    assert n == q * (d * p) + (d * r + rest) by {
      assert n == d * m + rest && m == q * p + r;
      assert d * (q * p + r) == d * (q * p) + d * r;
      MulAssoc(d, q, p);
      MulAssoc(q, d, p);
    }
    assert d * r + rest < d * p by { assert d * (r + 1) == d * r + d; }
    DivModUnique(q, d * r + rest, d * p);
  }

  // ---- shifts, and the bitwise operators of math/big on naturals ------------------------------

  function Shl(n: nat, k: nat): nat {
    if k == 0 then n else 2 * Shl(n, k - 1)
  }

  function Shr(n: nat, k: nat): nat {
    if k == 0 then n else Shr(n / 2, k - 1)
  }

  /** The `k` least significant bits. */
  function Low(n: nat, k: nat): nat {
    if k == 0 then 0 else 2 * Low(n / 2, k - 1) + n % 2
  }

  function BitAnd(a: nat, b: nat): nat {
    if a == 0 || b == 0 then 0 else 2 * BitAnd(a / 2, b / 2) + (if a % 2 == 1 && b % 2 == 1 then 1 else 0)
  }

  function BitOr(a: nat, b: nat): nat
    decreases a + b
  {
    if a == 0 && b == 0 then 0 else 2 * BitOr(a / 2, b / 2) + (if a % 2 == 1 || b % 2 == 1 then 1 else 0)
  }

  lemma {:induction false} SplitBits(n: nat, k: nat)
    ensures n == Shl(Shr(n, k), k) + Low(n, k) && Low(n, k) < Pow(2, k)
  {
    if k > 0 { SplitBits(n / 2, k - 1); }
  }

  lemma {:induction false} JoinBits(a: nat, k: nat, c: nat)
    requires c < Pow(2, k)
    ensures Shr(Shl(a, k) + c, k) == a && Low(Shl(a, k) + c, k) == c
  {
    if k > 0 { JoinBits(a, k - 1, c / 2); }
  }

  lemma {:induction false} ShlBounds(a: nat, b: nat, k: nat)
    ensures Shl(a + 1, k) == Shl(a, k) + Pow(2, k)
    ensures a <= b ==> Shl(a, k) <= Shl(b, k)
  {
    if k > 0 { ShlBounds(a, b, k - 1); }
  }

  lemma {:induction false} ShrBound(n: nat, b: nat, k: nat)
    requires n < Shl(b, k)
    ensures Shr(n, k) < b
  {
    if k > 0 { ShrBound(n / 2, b, k - 1); }
  }

  lemma {:induction false} ShrStep(n: nat, k: nat)
    ensures Shr(n, k + 1) == Shr(n, k) / 2
  {
    if k > 0 { ShrStep(n / 2, k - 1); }
  }

  lemma {:induction false} ShlIsMul(n: nat, k: nat)
    ensures Shl(n, k) == n * Pow(2, k)
  {
    if k > 0 { ShlIsMul(n, k - 1); }
  }

  lemma ShrIsDiv(n: nat, k: nat)
    ensures Pow(2, k) > 0 && n / Pow(2, k) == Shr(n, k)
  {
    SplitBits(n, k);
    ShlIsMul(Shr(n, k), k);
    DivModUnique(Shr(n, k), Low(n, k), Pow(2, k));
  }

  /** Masking with 2^k - 1 keeps the low bits. */
  lemma {:induction false} AndMask(a: nat, k: nat)
    ensures Pow(2, k) >= 1 && BitAnd(a, Pow(2, k) - 1) == Low(a, k)
  {
    PowPositive(2, k);
    if k == 0 {
    } else {
      AndMask(a / 2, k - 1);
      if a == 0 { LowZero(k); }
    }
  }

  lemma {:induction false} LowZero(k: nat)
    ensures Low(0, k) == 0
  {
    if k > 0 { LowZero(k - 1); }
  }

  /** Or-ing a value below 2^k into a number shifted by k adds it. */
  lemma {:induction false} OrDisjoint(a: nat, k: nat, b: nat)
    requires b < Pow(2, k)
    ensures BitOr(Shl(a, k), b) == Shl(a, k) + b
  {
    if k == 0 { OrZero(a); } else { OrDisjoint(a, k - 1, b / 2); }
  }

  lemma {:induction false} OrZero(a: nat)
    ensures BitOr(a, 0) == a
  {
    if a > 0 { OrZero(a / 2); }
  }

  /** Testing one bit. */
  lemma {:induction false} AndBit(a: nat, k: nat)
    ensures BitAnd(a, Pow(2, k)) > 0 <==> Shr(a, k) % 2 == 1
  {
    PowPositive(2, k);
    if k == 0 {
      assert Pow(2, 0) == 1;
      assert BitAnd(a / 2, 0) == 0;
    } else {
      AndBit(a / 2, k - 1);
      if a == 0 { ShrZero(k); }
    }
  }

  lemma {:induction false} ShrZero(k: nat)
    ensures Shr(0, k) == 0
  {
    if k > 0 { ShrZero(k - 1); }
  }
}
