/** SCALE compact lengths, junction identifiers and derivation paths (crypto/key/privatekey.go). */
module SubstratePaths {
  import opened Common
  import opened Decimals
  import opened Numbers
  import opened Sequences

  const HASH_LENGTH := 32

  // ---- little endian ----------------------------------------------------------------------------------------

  function LittleEndian(n: nat, width: nat): (bs: Bytes)
    ensures |bs| == width
    decreases width
  {
    if width == 0 then [] else [n % 256] + LittleEndian(n / 256, width - 1)
  }

  function LittleValue(bs: Bytes): nat {
    if bs == [] then 0 else bs[0] as int + 256 * LittleValue(bs[1..])
  }

  lemma {:induction false} LittleRoundTrip(n: nat, width: nat)
    requires n < Pow(256, width)
    ensures LittleValue(LittleEndian(n, width)) == n
    decreases width
  {
    if width > 0 {
      LittleRoundTrip(n / 256, width - 1);
      assert LittleEndian(n, width)[1..] == LittleEndian(n / 256, width - 1);
    }
  }

  lemma {:induction false} LittleBound(bs: Bytes)
    ensures LittleValue(bs) < Pow(256, |bs|)
  {
    if bs != [] { LittleBound(bs[1..]); }
  }

  lemma {:induction false} LittleEndianOfValue(bs: Bytes)
    ensures LittleEndian(LittleValue(bs), |bs|) == bs
  {
    if bs != [] {
      LittleEndianOfValue(bs[1..]);
      var v := LittleValue(bs[1..]);
      assert (bs[0] as int + 256 * v) % 256 == bs[0] as int && (bs[0] as int + 256 * v) / 256 == v;
    }
  }

  /** The last byte is zero exactly when the value fits without it. */
  lemma {:induction false} LastByte(n: nat, width: nat)
    requires n < Pow(256, width + 1)
    ensures LittleEndian(n, width + 1)[..width] == LittleEndian(n, width)
    ensures LittleEndian(n, width + 1)[width] == 0 <==> n < Pow(256, width)
    decreases width
  {
    if width > 0 {
      LastByte(n / 256, width - 1);
      assert LittleEndian(n, width + 1) == [n % 256] + LittleEndian(n / 256, width);
      assert n / 256 < Pow(256, width - 1) <==> n < Pow(256, width);
    } else {
      assert LittleEndian(n, 1) == [n % 256];
    }
  }

  lemma Powers()
    ensures Pow(256, 0) == 1 && Pow(256, 1) == 0x100 && Pow(256, 2) == 0x1_0000 && Pow(256, 3) == 0x100_0000
    ensures Pow(256, 4) == 0x1_0000_0000 && Pow(256, 7) == 0x100_0000_0000_0000 && Pow(256, 8) == TWO_TO_64
  {
    assert Pow(256, 1) == 256 * Pow(256, 0);
    assert Pow(256, 2) == 256 * Pow(256, 1);
    assert Pow(256, 3) == 256 * Pow(256, 2);
    assert Pow(256, 4) == 256 * Pow(256, 3);
    assert Pow(256, 5) == 256 * Pow(256, 4);
    assert Pow(256, 6) == 256 * Pow(256, 5);
    assert Pow(256, 7) == 256 * Pow(256, 6);
    assert Pow(256, 8) == 256 * Pow(256, 7);
  }

  lemma {:induction false} PowGrows(k: nat, m: nat)
    requires k <= m
    ensures Pow(256, k) <= Pow(256, m)
    decreases m - k
  {
    if k < m {
      PowPositive(256, m - 1);
      PowGrows(k, m - 1);
    }
  }

  // ---- scaleCompactLength -----------------------------------------------------------------------------------

  /** The fewest bytes, at least four and at most `size`, that hold the number. */
  function FewestBytes(n: nat, size: nat): (s: nat)
    requires 4 <= size <= 8
    ensures 4 <= s <= size
  {
    if size > 4 && n < Pow(256, size - 1) then FewestBytes(n, size - 1) else size
  }

  function Compact(n: Uint64): Bytes {
    if n < 0x40 then [4 * n]
    else if n < 0x4000 then LittleEndian(4 * n + 1, 2)
    else if n < 0x4000_0000 then LittleEndian(4 * n + 2, 4)
    else [4 * (FewestBytes(n, 8) - 4) + 3] + LittleEndian(n, FewestBytes(n, 8))
  }

  method ScaleCompactLength(n: Uint64) returns (bs: Bytes)
    ensures bs == Compact(n)
  {
    hide LittleEndian, FewestBytes;
    if n < 0x40 {
      return [4 * n];
    }
    if n < 0x4000 {
      TwoBytes(4 * n + 1);
      return [(4 * n + 1) % 256, (4 * n + 1) / 256];
    }
    if n < 0x4000_0000 {
      return LittleEndian(4 * n + 2, 4);
    }
    var le := TrimmedBytes(n);
    return [4 * (|le| - 4) + 3] + le;
  }

  lemma TwoBytes(v: nat)
    requires v < 0x1_0000
    ensures LittleEndian(v, 2) == [v % 256, v / 256]
  {
    assert LittleEndian(v, 2) == [v % 256] + LittleEndian(v / 256, 1);
    assert LittleEndian(v / 256, 1) == [v / 256 % 256];
  }

  /** The loop of the long form. */
  method TrimmedBytes(n: Uint64) returns (bs: Bytes)
    ensures bs == LittleEndian(n, FewestBytes(n, 8))
  {
    Powers();
    hide Pow, LittleEndian;
    var le := LittleEndian(n, 8);
    var size := 8;
    assert le[..8] == le;
    while size > 4 && le[size - 1] == 0
      invariant 4 <= size <= 8 && n < Pow(256, size) && le[..size] == LittleEndian(n, size)
      invariant FewestBytes(n, size) == FewestBytes(n, 8)
    {
      LastByte(n, size - 1);
      assert le[..size - 1] == le[..size][..size - 1];
      size := size - 1;
    }
    if size > 4 {
      LastByte(n, size - 1);
      assert le[..size][size - 1] == le[size - 1];
    }
    return le[..size];
  }

  /** The reading side: a compact number at the head of some bytes, and what follows it. */
  function ReadCompact(bs: Bytes): Option<(nat, Bytes)> {
    if bs == [] then None
    else
      var head := bs[0] as int / 4;
      match bs[0] as int % 4
      case 0 => Some((head, bs[1..]))
      case 1 => if |bs| < 2 then None else Some((LittleValue(bs[..2]) / 4, bs[2..]))
      case 2 => if |bs| < 4 then None else Some((LittleValue(bs[..4]) / 4, bs[4..]))
      case _ => if |bs| < head + 5 then None else Some((LittleValue(bs[1..head + 5]), bs[head + 5..]))
  }

  lemma {:induction false} FewestBytesFits(n: nat, size: nat)
    requires 4 <= size <= 8 && n < Pow(256, size)
    ensures n < Pow(256, FewestBytes(n, size))
    ensures forall k :: 4 <= k && n < Pow(256, k) ==> FewestBytes(n, size) <= k
  {
    if size > 4 && n < Pow(256, size - 1) {
      FewestBytesFits(n, size - 1);
    } else {
      forall k | 4 <= k && n < Pow(256, k) ensures size <= k {
        if k < size { PowGrows(k, size - 1); }
      }
    }
  }

  lemma ReadTwoBytes(n: Uint64, rest: Bytes)
    requires 0x40 <= n < 0x4000
    ensures ReadCompact(Compact(n) + rest) == Some((n as nat, rest))
  {
    Powers();
    var v := 4 * n + 1;
    LittleRoundTrip(v, 2);
    var bs := Compact(n) + rest;
    assert bs[0] as int == v % 256;
    hide LittleEndian, LittleValue, Pow;
    assert bs[..2] == Compact(n) && bs[2..] == rest;
    assert v % 256 % 4 == 1;
  }

  lemma ReadFourBytes(n: Uint64, rest: Bytes)
    requires 0x4000 <= n < 0x4000_0000
    ensures ReadCompact(Compact(n) + rest) == Some((n as nat, rest))
  {
    Powers();
    var v := 4 * n + 2;
    LittleRoundTrip(v, 4);
    var bs := Compact(n) + rest;
    assert bs[0] as int == v % 256;
    hide LittleEndian, LittleValue, Pow;
    assert bs[..4] == Compact(n) && bs[4..] == rest;
    assert v % 256 % 4 == 2;
  }

  /** Self-delimiting: whatever follows, the length is read back and the rest is what followed. */
  lemma CompactReadsBack(n: Uint64, rest: Bytes)
    ensures ReadCompact(Compact(n) + rest) == Some((n, rest))
  {
    if n < 0x40 {
      assert (Compact(n) + rest)[1..] == rest;
    } else if n < 0x4000 {
      ReadTwoBytes(n, rest);
    } else if n < 0x4000_0000 {
      ReadFourBytes(n, rest);
    } else {
      Powers();
      FewestBytesFits(n, 8);
      var s := FewestBytes(n, 8);
      LittleRoundTrip(n, s);
      var bs := Compact(n) + rest;
      hide LittleEndian, LittleValue, FewestBytes;
      assert bs[0] as int / 4 == s - 4 && bs[0] as int % 4 == 3;
      assert bs[1..s + 1] == LittleEndian(n, s) && bs[s + 1..] == rest;
    }
  }

  /** Uniquely decodable: no encoding is the beginning of another. */
  lemma CompactIsPrefixFree(m: Uint64, n: Uint64, a: Bytes, b: Bytes)
    requires Compact(m) + a == Compact(n) + b
    ensures m == n && a == b
  {
    CompactReadsBack(m, a);
    CompactReadsBack(n, b);
  }

  /** Minimal: nothing shorter reads as the same number. */
  lemma CompactIsShortest(n: Uint64, bs: Bytes)
    requires ReadCompact(bs) == Some((n as nat, []))
    ensures |Compact(n)| <= |bs|
  {
    Powers();
    var head := bs[0] as int / 4;
    if bs[0] as int % 4 == 3 {
      LittleBound(bs[1..head + 5]);
      if n >= 0x4000_0000 {
        FewestBytesFits(n, 8);
      }
    } else if bs[0] as int % 4 == 2 {
      LittleBound(bs[..4]);
    } else if bs[0] as int % 4 == 1 {
      LittleBound(bs[..2]);
    }
  }

  /** Byte `i` has the weight 256 to the power of `i`. */
  lemma {:induction false} LittleEndianAt(n: nat, width: nat, i: nat)
    requires i < width
    ensures Pow(256, i) > 0 && LittleEndian(n, width)[i] as int == n / Pow(256, i) % 256
    decreases i
  {
    PowPositive(256, i);
    if i == 0 {
      assert n / 1 == n;
    } else {
      LittleEndianAt(n / 256, width - 1, i - 1);
      DivideTwice(n, 256, Pow(256, i - 1));
    }
  }

  /**
   * The four forms: one, two or four bytes with the mode in the two lowest bits, or a head byte that tells how many
   * bytes follow it, which is at least four and no more than needed. The lowest byte comes first.
   */
  lemma CompactSpells(n: Uint64, i: nat)
    ensures n < 64 ==> Compact(n) == [4 * n]
    ensures 64 <= n < 16384 ==> Compact(n) == [(4 * n + 1) % 256, (4 * n + 1) / 256]
    ensures 16384 <= n < 1073741824 ==>
              Compact(n) == [(4 * n + 2) % 256, (4 * n + 2) / 256 % 256, (4 * n + 2) / 65536 % 256,
                             (4 * n + 2) / 16777216]
    ensures n >= 1073741824 ==>
              && 5 <= |Compact(n)| <= 9 && Compact(n)[0] as int == 4 * (|Compact(n)| - 5) + 3
              && (|Compact(n)| > 5 ==> n >= Pow(256, |Compact(n)| - 2))
              && (i + 1 < |Compact(n)| ==> Pow(256, i) > 0 && Compact(n)[i + 1] as int == n / Pow(256, i) % 256)
  {
    if n < 64 {
    } else if n < 16384 {
      TwoBytes(4 * n + 1);
    } else if n < 1073741824 {
      FourBytes(4 * n + 2);
    } else {
      LongForm(n, i);
    }
  }

  lemma FourBytes(v: nat)
    requires v < 0x1_0000_0000
    ensures LittleEndian(v, 4) == [v % 256, v / 256 % 256, v / 65536 % 256, v / 16777216]
  {
    assert v / 256 / 256 == v / 65536 && v / 65536 / 256 == v / 16777216;
    assert LittleEndian(v, 4) == [v % 256] + LittleEndian(v / 256, 3);
    assert LittleEndian(v / 256, 3) == [v / 256 % 256] + LittleEndian(v / 65536, 2);
    TwoBytes(v / 65536);
  }

  lemma LongForm(n: Uint64, i: nat)
    requires n >= 1073741824
    ensures 5 <= |Compact(n)| <= 9 && Compact(n)[0] as int == 4 * (|Compact(n)| - 5) + 3
    ensures |Compact(n)| > 5 ==> n >= Pow(256, |Compact(n)| - 2)
    ensures i + 1 < |Compact(n)| ==> Pow(256, i) > 0 && Compact(n)[i + 1] as int == n / Pow(256, i) % 256
  {
    hide Pow, LittleEndian;
    Powers();
    FewestBytesFits(n, 8);
    var s := FewestBytes(n, 8);
    if i < s { LittleEndianAt(n, s, i); }
    assert s > 4 ==> !(n < Pow(256, s - 1));
  }

  // ---- substrateJunctionIDStandard --------------------------------------------------------------------------

  /** A Go string holds bytes: one character for each. */
  type Name = s: string | |s| < TWO_TO_64 && forall i :: 0 <= i < |s| ==> s[i] as int < 256

  function AsBytes(s: Name): (bs: Bytes)
    ensures |bs| == |s|
  {
    seq(|s|, i requires 0 <= i < |s| => s[i] as int)
  }

  predicate Numeric(s: Name) { ParseUint(s).Parsed? }

  function Number(s: Name): (n: Uint64)
    requires Numeric(s)
  {
    ParsedBound(s, 0);
    ParseUint(s).value
  }

  /** `copy` into a zeroed buffer of 32 bytes. */
  function Buffered(bs: Bytes): (r: Bytes)
    requires |bs| <= HASH_LENGTH
    ensures |r| == HASH_LENGTH
  {
    bs + seq(HASH_LENGTH - |bs|, i => 0)
  }

  /** `hash` is blake2b-256. */
  type Hasher = Bytes -> Bytes

  function JunctionID(name: Name, hash: Hasher): Bytes {
    if Numeric(name) then Buffered(LittleEndian(Number(name), 8))
    else
      var encoded := Compact(|name|) + AsBytes(name);
      if |encoded| > HASH_LENGTH then hash(encoded) else Buffered(encoded)
  }

  predicate Short(name: Name) { |name| <= 31 }

  lemma AsBytesInjective(s: Name, t: Name)
    requires AsBytes(s) == AsBytes(t)
    ensures s == t
  {
    forall i | 0 <= i < |s| ensures s[i] == t[i] {
      assert AsBytes(s)[i] == AsBytes(t)[i];
    }
  }

  lemma ShortWord(name: Name, hash: Hasher)
    requires Short(name) && !Numeric(name)
    ensures JunctionID(name, hash) == Buffered([4 * |name|] + AsBytes(name))
  {
    assert Compact(|name|) == [4 * |name|];
  }

  /**
   * What the 32 bytes are: the number in the first eight, lowest byte first; or four times the length and the bytes
   * of a name below 32; or, from 32 bytes on, the hash of the compact length and the bytes.
   */
  lemma IdentifierSays(name: Name, hash: Hasher, i: nat)
    ensures var id := JunctionID(name, hash);
            if ParseUint(name).Parsed? then
              && |id| == 32 && LittleValue(id[..8]) == ParseUint(name).value && (8 <= i < 32 ==> id[i] == 0)
            else if |name| < 32 then
              && |id| == 32 && id[0] as int == 4 * |name|
              && (i < 31 ==> id[i + 1] as int == if i < |name| then name[i] as int else 0)
            else id == hash(Compact(|name|) + AsBytes(name))
  {
    hide ParseUint, LittleEndian, LittleValue, Compact, Pow;
    if Numeric(name) {
      NumberBuffer(Number(name));
    } else if |name| < 32 {
      ShortWord(name, hash);
    } else {
      LongLength(|name|);
    }
  }

  lemma LongLength(n: Uint64)
    ensures |Compact(n)| >= 1
  {
    hide LittleEndian;
  }

  /** Short names that are not numbers have different identifiers. */
  lemma WordsNeverCollide(s: Name, t: Name, hash: Hasher)
    requires Short(s) && Short(t) && !Numeric(s) && !Numeric(t)
    ensures JunctionID(s, hash) == JunctionID(t, hash) <==> s == t
  {
    ShortWord(s, hash);
    ShortWord(t, hash);
    hide JunctionID, Numeric;
    if JunctionID(s, hash) == JunctionID(t, hash) {
      var id := Buffered([4 * |s|] + AsBytes(s));
      assert id[0] as int == 4 * |s| && id[0] as int == 4 * |t|;
      assert id[1..|s| + 1] == AsBytes(s) && id[1..|s| + 1] == AsBytes(t);
      AsBytesInjective(s, t);
    }
  }

  /** Numbers collide exactly when they are equal, whatever their digits. */
  lemma NumbersCollideByValue(s: Name, t: Name, hash: Hasher)
    requires Numeric(s) && Numeric(t)
    ensures JunctionID(s, hash) == JunctionID(t, hash) <==> Number(s) == Number(t)
  {
    Powers();
    var a, b := Number(s), Number(t);
    LittleRoundTrip(a, 8);
    LittleRoundTrip(b, 8);
    hide Numeric, Number, LittleEndian, LittleValue;
    assert Buffered(LittleEndian(a, 8))[..8] == LittleEndian(a, 8)
           && Buffered(LittleEndian(b, 8))[..8] == LittleEndian(b, 8);
  }

  /** The number whose identifier a short word has, if the word fits the first eight bytes. */
  predicate FitsEightBytes(s: Name) { forall i :: 7 <= i < |s| ==> s[i] as int == 0 }

  function WordAsNumber(s: Name): nat
    requires Short(s)
  {
    LittleValue(Buffered([4 * |s|] + AsBytes(s))[..8])
  }

  lemma NumberBuffer(n: Uint64)
    ensures var number := Buffered(LittleEndian(n, 8));
            LittleValue(number[..8]) == n && forall i :: 8 <= i < HASH_LENGTH ==> number[i] == 0
  {
    Powers();
    LittleRoundTrip(n, 8);
    hide LittleEndian, LittleValue, Pow;
    assert Buffered(LittleEndian(n, 8))[..8] == LittleEndian(n, 8);
  }

  lemma WordBuffer(t: Name)
    requires Short(t)
    ensures var word := Buffered([4 * |t|] + AsBytes(t));
            FitsEightBytes(t) <==> forall i :: 8 <= i < HASH_LENGTH ==> word[i] == 0
  {
    var word := Buffered([4 * |t|] + AsBytes(t));
    forall i | 8 <= i < HASH_LENGTH ensures word[i] as int == if i <= |t| then t[i - 1] as int else 0 { }
    if forall i :: 8 <= i < HASH_LENGTH ==> word[i] == 0 {
      forall i | 7 <= i < |t| ensures t[i] as int == 0 { assert word[i + 1] == 0; }
    }
  }

  /** Two buffers with nothing behind their first eight bytes are equal exactly if those spell the same number. */
  lemma EightBytesDecide(a: Bytes, b: Bytes)
    requires |a| == |b| == HASH_LENGTH && forall i :: 8 <= i < HASH_LENGTH ==> a[i] == 0
    ensures a == b <==> LittleValue(a[..8]) == LittleValue(b[..8]) && forall i :: 8 <= i < HASH_LENGTH ==> b[i] == 0
  {
    LittleEndianOfValue(a[..8]);
    LittleEndianOfValue(b[..8]);
    hide LittleEndian, LittleValue;
    if LittleValue(a[..8]) == LittleValue(b[..8]) && forall i :: 8 <= i < HASH_LENGTH ==> b[i] == 0 {
      assert a[..8] == b[..8];
      assert a[8..] == b[8..];
      assert a == a[..8] + a[8..] && b == b[..8] + b[8..];
    }
  }

  /** A number and a short word collide exactly when the word fits eight bytes and spells that number. */
  lemma NumberAndWordCollide(s: Name, t: Name, hash: Hasher)
    requires Numeric(s) && !Numeric(t) && Short(t)
    ensures JunctionID(s, hash) == JunctionID(t, hash) <==> FitsEightBytes(t) && Number(s) == WordAsNumber(t)
  {
    ShortWord(t, hash);
    var number, word := Buffered(LittleEndian(Number(s), 8)), Buffered([4 * |t|] + AsBytes(t));
    assert JunctionID(s, hash) == number && WordAsNumber(t) == LittleValue(word[..8]);
    hide Numeric, Number, LittleEndian, LittleValue, JunctionID, Buffered, FitsEightBytes, WordAsNumber;
    NumberBuffer(Number(s));
    WordBuffer(t);
    EightBytesDecide(number, word);
  }

  lemma WordA(hash: Hasher)
    ensures !Numeric("a") && Short("a") && FitsEightBytes("a") && WordAsNumber("a") == 24836
  {
    assert "a"[0] == 'a';
    assert AsBytes("a") == [97];
    assert Buffered([4] + [97])[..8] == [4, 97, 0, 0, 0, 0, 0, 0];
    SmallValue(4, 97);
  }

  lemma ReadDigit(d: char, rest: string, acc: nat)
    requires IsDigit(d) && acc * 10 + DigitValue(d) < TWO_TO_64
    ensures ParseDigits([d] + rest, acc) == ParseDigits(rest, acc * 10 + DigitValue(d))
  {
    assert ([d] + rest)[1..] == rest;
  }

  lemma Digits24836()
    ensures ParseUint("24836") == Parsed(24836)
  {
    ReadDigit('2', "4836", 0);
    ReadDigit('4', "836", 2);
    ReadDigit('8', "36", 24);
    ReadDigit('3', "6", 248);
    ReadDigit('6', "", 2483);
    hide ParseDigits;
    assert "24836" == ['2'] + "4836" && "4836" == ['4'] + "836" && "836" == ['8'] + "36" && "36" == ['3'] + "6"
           && "6" == ['6'] + "";
    assert ParseDigits("", 24836) == Parsed(24836) by { NothingLeft(24836); }
  }

  lemma NothingLeft(acc: nat)
    ensures ParseDigits("", acc) == Parsed(acc)
  {
  }

  lemma DigitsOfSeven()
    ensures ParseUint("7") == Parsed(7) && ParseUint("007") == Parsed(7)
  {
    ReadDigit('7', "", 0);
    ReadDigit('0', "07", 0);
    ReadDigit('0', "7", 0);
    NothingLeft(7);
    hide ParseDigits;
    assert "7" == ['7'] + "" && "007" == ['0'] + "07" && "07" == ['0'] + "7";
  }

  /** "a" and "24836" share an identifier, and so do "7" and "007". */
  lemma CollidingNames(hash: Hasher)
    ensures JunctionID("a", hash) == JunctionID("24836", hash)
    ensures JunctionID("7", hash) == JunctionID("007", hash)
  {
    hide ParseUint, JunctionID, WordAsNumber, FitsEightBytes, Short;
    Digits24836();
    DigitsOfSeven();
    WordA(hash);
    NumberAndWordCollide("24836", "a", hash);
    NumbersCollideByValue("7", "007", hash);
  }

  lemma SmallValue(a: Byte, b: Byte)
    ensures LittleValue([a, b, 0, 0, 0, 0, 0, 0]) == a as int + 256 * b as int
  {
    var z := [0, 0, 0, 0, 0, 0];
    ZerosValue(z);
    assert [a, b, 0, 0, 0, 0, 0, 0][1..] == [b] + z;
    assert ([b] + z)[1..] == z;
  }

  lemma {:induction false} ZerosValue(z: Bytes)
    requires forall i :: 0 <= i < |z| ==> z[i] == 0
    ensures LittleValue(z) == 0
  {
    if z != [] { ZerosValue(z[1..]); }
  }

  // ---- parseSubstratePath -----------------------------------------------------------------------------------

  predicate SlashFree(s: string) { forall i :: 0 <= i < |s| ==> s[i] != '/' }

  predicate AllSlashFree(names: seq<string>) { forall i :: 0 <= i < |names| ==> SlashFree(names[i]) }

  /** Every name after two slashes. */
  function PathOf(names: seq<string>): string {
    if names == [] then "" else "//" + names[0] + PathOf(names[1..])
  }

  function Junctions(names: seq<string>, junctionID: string -> Bytes): (r: seq<Bytes>)
    ensures |r| == |names|
  {
    seq(|names|, i requires 0 <= i < |names| => junctionID(names[i]))
  }

  predicate EndsHere(s: string) { s == "" || s[0] == '/' }

  function UpToSlash(s: string): (n: nat)
    ensures n <= |s| && SlashFree(s[..n]) && EndsHere(s[n..])
  {
    if EndsHere(s) then 0 else UpToSlash(s[1..]) + 1
  }

  lemma {:induction false} UpToSlashOf(a: string, x: string)
    requires SlashFree(a) && EndsHere(x)
    ensures UpToSlash(a + x) == |a|
  {
    if a == "" {
      assert a + x == x;
    } else {
      assert (a + x)[1..] == a[1..] + x;
      UpToSlashOf(a[1..], x);
    }
  }

  lemma SameUpToSlash(a: string, x: string, b: string, y: string)
    requires a + x == b + y && SlashFree(a) && SlashFree(b) && EndsHere(x) && EndsHere(y)
    ensures a == b && x == y
  {
    UpToSlashOf(a, x);
    UpToSlashOf(b, y);
    assert a == (a + x)[..|a|] && b == (b + y)[..|b|];
    assert x == (a + x)[|a|..] && y == (b + y)[|b|..];
  }

  lemma PathEndsHere(names: seq<string>)
    ensures EndsHere(PathOf(names))
  {
  }

  lemma Regroup(h: string, t: string, rest: string)
    ensures "//" + h + t + rest == "//" + (h + (t + rest))
  {
    Associate("//", h, t);
    Associate("//", h + t, rest);
    Associate(h, t, rest);
  }

  lemma PathHead(names: seq<string>, rest: string)
    requires names != []
    ensures (PathOf(names) + rest)[2..] == names[0] + (PathOf(names[1..]) + rest)
    ensures (PathOf(names) + rest)[..2] == "//"
  {
    var t := PathOf(names[1..]);
    assert PathOf(names) == "//" + names[0] + t;
    hide PathOf;
    Regroup(names[0], t, rest);
    var tail := names[0] + (t + rest);
    assert ("//" + tail)[2..] == tail && ("//" + tail)[..2] == "//";
  }

  lemma FirstName(done: seq<string>, rest: string, names: seq<string>)
    requires done != [] && AllSlashFree(done) && AllSlashFree(names) && EndsHere(rest)
    requires PathOf(done) + rest == PathOf(names)
    ensures names != [] && done[0] == names[0] && PathOf(done[1..]) + rest == PathOf(names[1..])
  {
    PathHead(done, rest);
    assert names != [] by { assert |PathOf(names)| >= 2; }
    PathHead(names, "");
    assert PathOf(names) + "" == PathOf(names) && PathOf(names[1..]) + "" == PathOf(names[1..]);
    PathEndsHere(done[1..]);
    PathEndsHere(names[1..]);
    hide PathOf, SlashFree;
    SameUpToSlash(done[0], PathOf(done[1..]) + rest, names[0], PathOf(names[1..]));
  }

  /** What is left after some names is the path of the other names. */
  lemma {:induction false} RestOfPath(done: seq<string>, rest: string, names: seq<string>)
    requires AllSlashFree(done) && AllSlashFree(names) && (done == [] || EndsHere(rest))
    requires PathOf(done) + rest == PathOf(names)
    ensures |done| <= |names| && done == names[..|done|] && PathOf(names[|done|..]) == rest
    decreases |done|
  {
    hide SlashFree;
    if done == [] {
      assert PathOf(done) + rest == rest && names[0..] == names;
    } else {
      FirstName(done, rest, names);
      hide PathOf;
      RestOfPath(done[1..], rest, names[1..]);
      assert names[1..][|done| - 1..] == names[|done|..];
      assert done == [done[0]] + done[1..] && names[..|done|] == [names[0]] + names[1..][..|done| - 1];
    }
  }

  lemma {:induction false} PathOfSnoc(names: seq<string>, name: string)
    ensures PathOf(names + [name]) == PathOf(names) + "//" + name
  {
    if names == [] {
      assert [name][1..] == [];
    } else {
      PathOfSnoc(names[1..], name);
      assert (names + [name])[1..] == names[1..] + [name];
    }
  }

  /** The parser undoes `PathOf` on slash-free names, and refuses everything else. */
  method ParseSubstratePath(path: string, junctionID: string -> Bytes) returns (r: Option<seq<Bytes>>)
    ensures r.Some? ==>
              exists names :: AllSlashFree(names) && path == PathOf(names) && r.value == Junctions(names, junctionID)
    ensures r.None? ==> forall names :: AllSlashFree(names) ==> path != PathOf(names)
  {
    hide SlashFree;
    var junctions: seq<Bytes> := [];
    var rest := path;
    ghost var names: seq<string> := [];
    while rest != ""
      invariant AllSlashFree(names) && path == PathOf(names) + rest && (names == [] || EndsHere(rest))
      invariant junctions == Junctions(names, junctionID)
      decreases |rest|
    {
      if |rest| < 2 || rest[..2] != "//" {
        forall others | AllSlashFree(others) ensures path != PathOf(others) {
          NoOtherNames(path, names, rest, others);
        }
        return None;
      }
      ghost var before := rest;
      rest := rest[2..];
      var end := UpToSlash(rest);
      var name := rest[..end];
      ReadOneName(names, before, end);
      rest := rest[end..];
      junctions := junctions + [junctionID(name)];
      names := names + [name];
    }
    assert PathOf(names) + rest == PathOf(names);
    return Some(junctions);
  }

  lemma ReadOneName(names: seq<string>, rest: string, end: nat)
    requires |rest| >= 2 && rest[..2] == "//" && end <= |rest| - 2
    ensures PathOf(names) + rest == PathOf(names + [rest[2..][..end]]) + rest[2..][end..]
  {
    var name := rest[2..][..end];
    PathOfSnoc(names, name);
    assert rest == "//" + name + rest[2..][end..];
  }

  lemma PathStarts(names: seq<string>)
    ensures PathOf(names) == "" || (|PathOf(names)| >= 2 && PathOf(names)[..2] == "//")
  {
    if names != [] {
      PathHead(names, "");
      assert PathOf(names) + "" == PathOf(names);
    }
  }

  lemma NoOtherNames(path: string, names: seq<string>, rest: string, others: seq<string>)
    requires path == PathOf(names) + rest && AllSlashFree(names) && AllSlashFree(others)
             && (names == [] || EndsHere(rest))
    requires rest != "" && (|rest| < 2 || rest[..2] != "//")
    ensures path != PathOf(others)
  {
    hide PathOf;
    if path == PathOf(others) {
      RestOfPath(names, rest, others);
      PathStarts(others[|names|..]);
    }
  }

  /** A path has only one reading. */
  lemma PathOfInjective(a: seq<string>, b: seq<string>)
    requires AllSlashFree(a) && AllSlashFree(b) && PathOf(a) == PathOf(b)
    ensures a == b
  {
    assert PathOf(a) + "" == PathOf(b);
    RestOfPath(a, "", b);
    assert b[..|b|] == b;
  }

  predicate PlainName(s: string) {
    SlashFree(s) && |s| <= 31 && (forall i :: 0 <= i < |s| ==> s[i] as int < 256) && !Numeric(s)
  }

  /** Paths of short words without slashes lead to the same junctions only if they are the same path. */
  lemma PlainPathsNeverCollide(a: seq<string>, b: seq<string>, hash: Hasher, junctionID: string -> Bytes)
    requires forall i :: 0 <= i < |a| ==> PlainName(a[i])
    requires forall i :: 0 <= i < |b| ==> PlainName(b[i])
    requires forall s: Name :: junctionID(s) == JunctionID(s, hash)
    ensures Junctions(a, junctionID) == Junctions(b, junctionID) <==> PathOf(a) == PathOf(b)
  {
    hide JunctionID, Numeric;
    if Junctions(a, junctionID) == Junctions(b, junctionID) {
      forall i | 0 <= i < |a| ensures a[i] == b[i] {
        assert Junctions(a, junctionID)[i] == Junctions(b, junctionID)[i];
        WordsNeverCollide(a[i], b[i], hash);
      }
      assert a == b;
    }
    if PathOf(a) == PathOf(b) {
      PathOfInjective(a, b);
    }
  }
}
