/** Addresses and the cache key of a pool (dex/univ3/quote_client.go). */
module PoolKeys {
  import opened Common
  import opened Decimals
  import opened Hex

  const ADDRESS_LENGTH := 20

  type Address = b: Bytes | |b| == ADDRESS_LENGTH witness [0, 0, 0, 0, 0, 0, 0, 0, 0, 0, 0, 0, 0, 0, 0, 0, 0, 0, 0, 0]

  const ZERO_ADDRESS: Address := [0, 0, 0, 0, 0, 0, 0, 0, 0, 0, 0, 0, 0, 0, 0, 0, 0, 0, 0, 0]

  /** `strings.ToLower(address.Hex())`: the checksum only changes the case of letters. */
  function LowerHex(a: Address): (s: string)
    ensures |s| == 42
  {
    "0x" + HexDigits(a)
  }

  /** The byte order in which Go compares strings. */
  predicate Before(a: string, b: string)
    decreases |a|
  {
    if b == "" then false
    else if a == "" then true
    else if a[0] != b[0] then a[0] < b[0]
    else Before(a[1..], b[1..])
  }

  lemma {:induction false} BeforeIsTotal(a: string, b: string)
    ensures a == b || Before(a, b) || Before(b, a)
    ensures !(Before(a, b) && Before(b, a))
    decreases |a|
  {
    if a != "" && b != "" && a[0] == b[0] {
      BeforeIsTotal(a[1..], b[1..]);
      assert a == [a[0]] + a[1..] && b == [b[0]] + b[1..];
    }
  }

  lemma LowerHexInjective(a: Address, b: Address)
    requires LowerHex(a) == LowerHex(b)
    ensures a == b
  {
    assert LowerHex(a)[2..] == HexDigits(a) && LowerHex(b)[2..] == HexDigits(b);
    HexDigitsInjective(a, b);
  }

  function PoolKey(tokenA: Address, tokenB: Address, fee: Uint32): string {
    var left, right := LowerHex(tokenA), LowerHex(tokenB);
    if Before(right, left) then right + ":" + left + ":" + Format(fee)
    else left + ":" + right + ":" + Format(fee)
  }

  predicate SamePair(a: Address, b: Address, c: Address, d: Address) {
    (a == c && b == d) || (a == d && b == c)
  }

  lemma KeyParts(left: string, right: string, fee: nat)
    requires |left| == 42 && |right| == 42
    ensures var key := left + ":" + right + ":" + Format(fee);
            key[..42] == left && key[43..85] == right && key[86..] == Format(fee)
  {
  }

  /** Two requests share a cache entry and a flight exactly when they ask for the same unordered pair and fee. */
  lemma PoolKeyIdentifiesPool(a: Address, b: Address, f: Uint32, c: Address, d: Address, g: Uint32)
    ensures PoolKey(a, b, f) == PoolKey(c, d, g) <==> SamePair(a, b, c, d) && f == g
  {
    var la, lb, lc, ld := LowerHex(a), LowerHex(b), LowerHex(c), LowerHex(d);
    BeforeIsTotal(la, lb);
    BeforeIsTotal(lc, ld);
    hide Before, HexDigits, LowerHex, Format;
    if PoolKey(a, b, f) == PoolKey(c, d, g) {
      KeyParts(if Before(lb, la) then lb else la, if Before(lb, la) then la else lb, f);
      KeyParts(if Before(ld, lc) then ld else lc, if Before(ld, lc) then lc else ld, g);
      FormatInjective(f, g);
      if la == lc { LowerHexInjective(a, c); }
      if lb == ld { LowerHexInjective(b, d); }
      if la == ld { LowerHexInjective(a, d); }
      if lb == lc { LowerHexInjective(b, c); }
    }
  }
}
