/** Uniswap V3 paths: tokens of 20 bytes joined by fees of 3 bytes (dex/univ3/quote_client.go). */
module QuotePath {
  import opened Common
  import opened PoolKeys
  import opened Sequences

  const MAX_UINT24: nat := 0xFF_FFFF

  /** A path taken apart: one more token than fees. */
  datatype Hops = Hops(tokens: seq<Address>, fees: seq<Uint32>)

  datatype PathError = BadLength | BadHop

  /** The low three bytes of `binary.BigEndian.PutUint32`. */
  function FeeBytes(fee: Uint32): (bs: Bytes)
    ensures |bs| == 3
  {
    [fee as int / 65536 % 256, fee as int / 256 % 256, fee as int % 256]
  }

  function FeeOf(bs: Bytes): (fee: Uint32)
    requires |bs| == 3
    ensures fee <= MAX_UINT24
  {
    bs[0] as int * 65536 + bs[1] as int * 256 + bs[2] as int
  }

  /** What the encoder writes from the token at the head on. */
  function Encoded(h: Hops): Bytes
    requires |h.tokens| == |h.fees| + 1
    decreases |h.fees|
  {
    if h.fees == [] then h.tokens[0]
    else h.tokens[0] + FeeBytes(h.fees[0]) + Encoded(Hops(h.tokens[1..], h.fees[1..]))
  }

  /** An empty result stands for the nil slice. */
  function EncodePath(h: Hops): Bytes {
    if |h.tokens| != |h.fees| + 1 || h.fees == [] then [] else Encoded(h)
  }

  function Split(path: Bytes): Result<Hops, PathError>
    requires |path| >= 20 && (|path| - 20) % 23 == 0
    decreases |path|
  {
    var token: Address := path[..20];
    if |path| == 20 then Ok(Hops([token], []))
    else
      var next: Address := path[23..43];
      if token == ZERO_ADDRESS || next == ZERO_ADDRESS || next == token then Err(BadHop)
      else match Split(path[23..])
        case Err(e) => Err(e)
        case Ok(h) => Ok(Hops([token] + h.tokens, [FeeOf(path[20..23])] + h.fees))
  }

  function DecodePath(path: Bytes): Result<Hops, PathError> {
    if |path| < 43 || (|path| - 20) % 23 != 0 then Err(BadLength) else Split(path)
  }

  /** The path written so far ends in token `i`; what the encoder writes from there on completes it. */
  ghost predicate WrittenTo(path: Bytes, h: Hops, i: nat)
    requires |h.tokens| == |h.fees| + 1 && i <= |h.fees|
  {
    && |path| >= 20 && path[|path| - 20..] == h.tokens[i]
    && Encoded(h) == path[..|path| - 20] + Encoded(Hops(h.tokens[i..], h.fees[i..]))
  }

  lemma WriteHop(path: Bytes, h: Hops, i: nat)
    requires |h.tokens| == |h.fees| + 1 && i < |h.fees| && WrittenTo(path, h, i)
    ensures WrittenTo(path + FeeBytes(h.fees[i]) + h.tokens[i + 1], h, i + 1)
  {
    hide FeeBytes;
    var rest, fee := Encoded(Hops(h.tokens[i + 1..], h.fees[i + 1..])), FeeBytes(h.fees[i]);
    assert h.tokens[i..][1..] == h.tokens[i + 1..] && h.fees[i..][1..] == h.fees[i + 1..];
    assert Encoded(Hops(h.tokens[i..], h.fees[i..])) == h.tokens[i] + fee + rest;
    hide Encoded;
    var front, after := path[..|path| - 20], path + fee + h.tokens[i + 1];
    assert after[..|after| - 20] == path + fee && path == front + h.tokens[i];
    assert front + (h.tokens[i] + fee + rest) == front + h.tokens[i] + fee + rest;
  }

  lemma WriteFirst(h: Hops)
    requires |h.tokens| == |h.fees| + 1
    ensures WrittenTo(h.tokens[0], h, 0)
  {
    hide Encoded, FeeBytes;
    FromStart(h);
    NothingBefore(h.tokens[0], Encoded(h));
  }

  lemma FromStart(h: Hops)
    requires |h.tokens| == |h.fees| + 1
    ensures Hops(h.tokens[0..], h.fees[0..]) == h
  {
  }

  lemma NothingBefore(token: Address, rest: Bytes)
    ensures token[..|token| - 20] + rest == rest && token[|token| - 20..] == token
  {
  }

  lemma EncodedToken(tokens: seq<Address>, fees: seq<Uint32>)
    requires fees == [] && |tokens| == 1
    ensures Encoded(Hops(tokens, fees)) == tokens[0]
  {
  }

  lemma WrittenToEnd(path: Bytes, h: Hops)
    requires |h.tokens| == |h.fees| + 1 && WrittenTo(path, h, |h.fees|)
    ensures path == Encoded(h)
  {
    EncodedToken(h.tokens[|h.fees|..], h.fees[|h.fees|..]);
    hide Encoded;
    Rejoin(path, |path| - 20);
  }

  method EncodeV3Path(h: Hops) returns (path: Bytes)
    ensures path == EncodePath(h)
  {
    hide WrittenTo, Encoded, FeeBytes;
    if |h.tokens| != |h.fees| + 1 || |h.fees| == 0 {
      return [];
    }
    WriteFirst(h);
    path := h.tokens[0];
    for i := 0 to |h.fees|
      invariant WrittenTo(path, h, i)
    {
      WriteHop(path, h, i);
      path := path + FeeBytes(h.fees[i]) + h.tokens[i + 1];
    }
    WrittenToEnd(path, h);
  }

  /** The hops read so far in front of what the rest of the path decodes to. */
  function Prefixed(done: Hops, rest: Result<Hops, PathError>): Result<Hops, PathError> {
    match rest
    case Err(e) => Err(e)
    case Ok(h) => Ok(Hops(done.tokens + h.tokens, done.fees + h.fees))
  }

  predicate BadHopAt(token: Address, next: Address) {
    token == ZERO_ADDRESS || next == ZERO_ADDRESS || next == token
  }

  /** One hop read at an offset of the path. */
  lemma SplitAt(path: Bytes, offset: nat)
    requires 20 <= offset && offset + 23 <= |path| && (|path| - offset) % 23 == 0
    ensures var token, next := path[offset - 20..offset], path[offset + 3..offset + 23];
            Split(path[offset - 20..]) ==
              if BadHopAt(token, next) then Err(BadHop)
              else Prefixed(Hops([token], [FeeOf(path[offset..offset + 3])]), Split(path[offset + 3..]))
  {
    hide FeeOf;
    var rest := path[offset - 20..];
    assert rest[..20] == path[offset - 20..offset] && rest[20..23] == path[offset..offset + 3];
    assert rest[23..43] == path[offset + 3..offset + 23] && rest[23..] == path[offset + 3..];
  }

  method DecodeV3Path(path: Bytes) returns (r: Result<Hops, PathError>)
    ensures r == DecodePath(path)
  {
    hide Split, FeeOf, Prefixed;
    if |path| < 43 || (|path| - 20) % 23 != 0 {
      return Err(BadLength);
    }
    var tokens: seq<Address> := [path[..20]];
    var fees: seq<Uint32> := [];
    var offset := 20;
    assert path[offset - 20..] == path && tokens[..|tokens| - 1] == [];
    PrefixedNothing(Split(path));
    while offset < |path|
      invariant 20 <= offset <= |path| && (|path| - offset) % 23 == 0
      invariant |tokens| == |fees| + 1 && tokens[|tokens| - 1] == path[offset - 20..offset]
      invariant Split(path) == Prefixed(Hops(tokens[..|tokens| - 1], fees), Split(path[offset - 20..]))
    {
      SplitAt(path, offset);
      var fee: Uint32 := FeeOf(path[offset..offset + 3]);
      var next: Address := path[offset + 3..offset + 23];
      ghost var before := Hops(tokens[..|tokens| - 1], fees);
      if fee > MAX_UINT24 || tokens[|tokens| - 1] == ZERO_ADDRESS || next == ZERO_ADDRESS
        || next == tokens[|tokens| - 1] {
        PrefixedError(before, BadHop);
        return Err(BadHop);
      }
      PrefixedStep(before, tokens[|tokens| - 1], fee, Split(path[offset + 3..]));
      fees := fees + [fee];
      tokens := tokens + [next];
      assert tokens[..|tokens| - 1] == before.tokens + [tokens[|tokens| - 2]];
      offset := offset + 23;
    }
    assert path[offset - 20..] == path[offset - 20..offset];
    SplitToken(tokens[|tokens| - 1]);
    PrefixedLast(tokens, fees);
    return Ok(Hops(tokens, fees));
  }

  lemma PrefixedLast(tokens: seq<Address>, fees: seq<Uint32>)
    requires |tokens| > 0
    ensures Prefixed(Hops(tokens[..|tokens| - 1], fees), Ok(Hops([tokens[|tokens| - 1]], []))) == Ok(Hops(tokens, fees))
  {
    assert tokens[..|tokens| - 1] + [tokens[|tokens| - 1]] == tokens && fees + [] == fees;
  }

  lemma PrefixedError(done: Hops, e: PathError)
    ensures Prefixed(done, Err(e)) == Err(e)
  {
  }

  lemma PrefixedNothing(rest: Result<Hops, PathError>)
    ensures Prefixed(Hops([], []), rest) == rest
  {
    if rest.Ok? {
      assert [] + rest.value.tokens == rest.value.tokens && [] + rest.value.fees == rest.value.fees;
    }
  }

  lemma PrefixedStep(done: Hops, token: Address, fee: Uint32, rest: Result<Hops, PathError>)
    ensures Prefixed(done, Prefixed(Hops([token], [fee]), rest))
            == Prefixed(Hops(done.tokens + [token], done.fees + [fee]), rest)
  {
    if rest.Ok? {
      assert done.tokens + ([token] + rest.value.tokens) == done.tokens + [token] + rest.value.tokens;
      assert done.fees + ([fee] + rest.value.fees) == done.fees + [fee] + rest.value.fees;
    }
  }

  // ---- the codec theorems -------------------------------------------------------------------------------

  /** A route somebody can swap along: at least one hop, real tokens, no hop from a token to itself. */
  predicate ValidHops(h: Hops) {
    && |h.tokens| == |h.fees| + 1 && |h.fees| > 0
    && (forall i :: 0 <= i < |h.fees| ==> h.fees[i] <= MAX_UINT24)
    && (forall i :: 0 <= i < |h.tokens| ==> h.tokens[i] != ZERO_ADDRESS)
    && (forall i :: 0 <= i < |h.fees| ==> h.tokens[i] != h.tokens[i + 1])
  }

  /** `ValidHops` with the empty route of one token. */
  predicate ValidFrom(h: Hops) {
    (|h.fees| == 0 && |h.tokens| == 1) || ValidHops(h)
  }

  lemma FeeOfBytes(fee: Uint32)
    ensures fee <= MAX_UINT24 ==> FeeOf(FeeBytes(fee)) == fee
  {
    assert fee as int / 256 == fee as int / 65536 * 256 + fee as int / 256 % 256;
  }

  lemma BytesOfFee(bs: Bytes)
    requires |bs| == 3
    ensures FeeBytes(FeeOf(bs)) == bs
  {
    var high := bs[0] as int * 256 + bs[1] as int;
    var fee := FeeOf(bs) as int;
    assert fee == high * 256 + bs[2] as int;
    assert fee / 256 == high && fee % 256 == bs[2] as int;
    assert high / 256 == bs[0] as int && high % 256 == bs[1] as int;
    assert fee / 65536 == bs[0] as int;
  }

  lemma EncodedHead(h: Hops)
    requires |h.tokens| == |h.fees| + 1
    ensures |Encoded(h)| >= 20 && Encoded(h)[..20] == h.tokens[0]
  {
  }

  lemma {:induction false} EncodedLength(h: Hops)
    requires |h.tokens| == |h.fees| + 1
    ensures |Encoded(h)| == 20 + 23 * |h.fees|
    decreases |h.fees|
  {
    if h.fees != [] {
      EncodedLength(Hops(h.tokens[1..], h.fees[1..]));
    }
  }

  lemma SplitHop(token: Address, fee: Bytes, rest: Bytes)
    requires |fee| == 3 && |rest| >= 20 && (|rest| - 20) % 23 == 0
    requires token != ZERO_ADDRESS && rest[..20] != ZERO_ADDRESS && rest[..20] != token
    ensures Split(token + fee + rest) == Prefixed(Hops([token], [FeeOf(fee)]), Split(rest))
  {
    hide FeeOf;
    var path := token + fee + rest;
    assert |path| == |rest| + 23;
    assert path[..20] == token && path[20..23] == fee && path[23..] == rest && path[23..43] == rest[..20];
  }

  lemma {:induction false} SplitInvertsEncoded(h: Hops)
    requires ValidFrom(h)
    ensures |Encoded(h)| >= 20 && (|Encoded(h)| - 20) % 23 == 0 && Split(Encoded(h)) == Ok(h)
    decreases |h.fees|
  {
    hide FeeBytes, FeeOf, Split;
    EncodedLength(h);
    if h.fees == [] {
      SplitToken(h.tokens[0]);
      assert h.tokens == [h.tokens[0]];
    } else {
      var rest := Hops(h.tokens[1..], h.fees[1..]);
      assert ValidFrom(rest) by {
        assert forall i :: 0 <= i < |rest.fees| ==> rest.fees[i] == h.fees[i + 1];
        assert forall i :: 0 <= i < |rest.tokens| ==> rest.tokens[i] == h.tokens[i + 1];
      }
      SplitInvertsEncoded(rest);
      EncodedHead(rest);
      SplitHop(h.tokens[0], FeeBytes(h.fees[0]), Encoded(rest));
      FeeOfBytes(h.fees[0]);
      assert [h.tokens[0]] + rest.tokens == h.tokens && [h.fees[0]] + rest.fees == h.fees;
    }
  }

  lemma SplitToken(token: Address)
    ensures Split(token) == Ok(Hops([token], []))
  {
    assert token[..20] == token;
  }

  predicate Reencodes(path: Bytes, h: Hops) {
    ValidFrom(h) && Encoded(h) == path && |path| == 20 + 23 * |h.fees| && h.tokens[0] == path[..20]
  }

  lemma {:induction false} EncodedInvertsSplit(path: Bytes)
    requires |path| >= 20 && (|path| - 20) % 23 == 0
    ensures Split(path).Ok? ==> Reencodes(path, Split(path).value)
    decreases |path|
  {
    if |path| == 20 {
      assert path[..20] == path;
    } else {
      EncodedInvertsSplit(path[23..]);
      hide FeeOf, FeeBytes, ValidFrom;
      var r := Split(path);
      if r.Ok? {
        ReencodesHop(path, r.value, Split(path[23..]).value);
      }
    }
  }

  lemma ReencodesHop(path: Bytes, h: Hops, rest: Hops)
    requires |path| >= 43 && Reencodes(path[23..], rest)
    requires !BadHopAt(path[..20], path[23..43])
    requires h == Hops([path[..20]] + rest.tokens, [FeeOf(path[20..23])] + rest.fees)
    ensures Reencodes(path, h)
  {
    assert path[23..][..20] == path[23..43];
    assert h.tokens[1..] == rest.tokens && h.fees[1..] == rest.fees;
    ConsValid(h, rest);
    BytesOfFee(path[20..23]);
    hide FeeOf, FeeBytes;
    assert path == path[..20] + path[20..23] + path[23..];
  }

  lemma ConsValid(h: Hops, rest: Hops)
    requires ValidFrom(rest) && |h.fees| > 0 && |h.tokens| > 1 && h.tokens[1..] == rest.tokens
             && h.fees[1..] == rest.fees
    requires h.fees[0] <= MAX_UINT24 && h.tokens[0] != ZERO_ADDRESS && h.tokens[1] != ZERO_ADDRESS
             && h.tokens[0] != h.tokens[1]
    ensures ValidHops(h)
  {
    forall i | 0 <= i < |h.fees| ensures h.fees[i] <= MAX_UINT24 && h.tokens[i] != h.tokens[i + 1] {
      assert i > 0 ==>
               h.fees[i] == rest.fees[i - 1] && h.tokens[i] == rest.tokens[i - 1] && h.tokens[i + 1] == rest.tokens[i];
    }
    forall i | 0 <= i < |h.tokens| ensures h.tokens[i] != ZERO_ADDRESS {
      assert i > 0 ==> h.tokens[i] == rest.tokens[i - 1];
    }
  }

  /** Decoding gives back what was encoded exactly when the route is valid. */
  lemma DecodeInvertsEncode(h: Hops)
    ensures DecodePath(EncodePath(h)) == Ok(h) <==> ValidHops(h)
  {
    if ValidHops(h) {
      SplitInvertsEncoded(h);
      EncodedLength(h);
    }
    if DecodePath(EncodePath(h)) == Ok(h) {
      EncodedInvertsSplit(EncodePath(h));
    }
  }

  /** Whatever decodes is a valid route and encodes to the same bytes. */
  lemma EncodeInvertsDecode(path: Bytes)
    ensures DecodePath(path).Ok? ==> ValidHops(DecodePath(path).value) && EncodePath(DecodePath(path).value) == path
    ensures DecodePath(path).Ok? <==> exists h :: ValidHops(h) && EncodePath(h) == path
  {
    if DecodePath(path).Ok? {
      EncodedInvertsSplit(path);
    }
    forall h | ValidHops(h) && EncodePath(h) == path ensures DecodePath(path).Ok? {
      DecodeInvertsEncode(h);
    }
  }

  /** Hop `i` begins every 23 bytes with its token; its fee follows in three bytes, the highest first. */
  predicate HopAt(path: Bytes, i: nat, token: Address, fee: Option<Uint32>) {
    && 23 * i + 20 <= |path| && path[23 * i..23 * i + 20] == token
    && (fee.Some? && fee.value <= MAX_UINT24 ==>
          && 23 * i + 23 <= |path|
          && path[23 * i + 20] as int * 65536 + path[23 * i + 21] as int * 256 + path[23 * i + 22] as int
             == fee.value as int)
  }

  lemma HopLater(path: Bytes, i: nat, token: Address, fee: Option<Uint32>)
    requires |path| >= 23 && HopAt(path[23..], i, token, fee)
    ensures HopAt(path, i + 1, token, fee)
  {
    assert path[23 * (i + 1)..23 * (i + 1) + 20] == path[23..][23 * i..23 * i + 20];
  }

  /** Where the tokens and fees of a path are. */
  lemma {:induction false} EncodedLayout(h: Hops, i: nat)
    requires |h.tokens| == |h.fees| + 1 && i <= |h.fees|
    ensures |Encoded(h)| == 20 + 23 * |h.fees|
    ensures HopAt(Encoded(h), i, h.tokens[i], if i < |h.fees| then Some(h.fees[i]) else None)
    decreases i
  {
    EncodedLength(h);
    if i == 0 {
      EncodedHead(h);
      if h.fees != [] { HeadHop(h); }
    } else {
      hide Encoded, HopAt;
      EncodedLayout(Hops(h.tokens[1..], h.fees[1..]), i - 1);
      LaterHops(h);
      HopLater(Encoded(h), i - 1, h.tokens[i], if i < |h.fees| then Some(h.fees[i]) else None);
    }
  }

  lemma HeadHop(h: Hops)
    requires |h.tokens| == |h.fees| + 1 && |h.fees| > 0 && |Encoded(h)| >= 23
    ensures Encoded(h)[..20] == h.tokens[0]
    ensures h.fees[0] <= MAX_UINT24 ==>
              Encoded(h)[20] as int * 65536 + Encoded(h)[21] as int * 256 + Encoded(h)[22] as int == h.fees[0] as int
  {
    FeeOfBytes(h.fees[0]);
    var rest := Encoded(Hops(h.tokens[1..], h.fees[1..]));
    assert Encoded(h) == h.tokens[0] + FeeBytes(h.fees[0]) + rest;
    hide Encoded, FeeBytes;
    assert (h.tokens[0] + FeeBytes(h.fees[0]) + rest)[20..23] == FeeBytes(h.fees[0]);
  }

  lemma LaterHops(h: Hops)
    requires |h.tokens| == |h.fees| + 1 && |h.fees| > 0
    ensures |Encoded(h)| >= 23 && Encoded(h)[23..] == Encoded(Hops(h.tokens[1..], h.fees[1..]))
  {
    hide FeeBytes;
    var front, rest := h.tokens[0] + FeeBytes(h.fees[0]), Encoded(Hops(h.tokens[1..], h.fees[1..]));
    assert Encoded(h) == front + rest;
    hide Encoded;
    assert (front + rest)[23..] == rest;
  }
}
