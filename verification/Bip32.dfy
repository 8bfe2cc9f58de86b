/**
 * crypto/bip/bip32.go and bip32utils.go: point compression, the two child derivations and the
 * serialized form. The curve y^2 = x^3 + b, its arithmetic and the hash functions are parameters;
 * `Lawful` collects what is used of them.
 */
module Bip32 {
  import opened Common
  import opened Numbers
  import opened PrimeField

  // ---- parameters --------------------------------------------------------------------------------

  /** An affine point; as in the source, (0, 0) stands for the point at infinity. */
  datatype Point = Point(x: nat, y: int)

  const INFINITY := Point(0, 0)

  /** `sqrt` is `ModSqrt`: it may return either root, and returns none for a non-residue. */
  datatype Curve = Curve(p: Positive, b: nat, n: Positive,
                         sqrt: nat -> Option<nat>,
                         add: (Point, Point) -> Point,
                         baseMult: nat -> Point)

  /** The two 32-byte halves of an HMAC-SHA512. */
  datatype Halves = Halves(left: Bytes, right: Bytes)

  /**
   * The hashes as they are used: HMAC-SHA512 by halves, and the leading four bytes of RIPEMD-160 of
   * SHA-256 (`fingerprint`) and of double SHA-256 (`checksum`).
   */
  datatype Hashes = Hashes(hmacSha512: (Bytes, Bytes) -> Halves,
                           fingerprint: Bytes -> Bytes,
                           checksum: Bytes -> Bytes)

  predicate RootOf(r: nat, v: nat, p: nat)
    requires p > 0
  {
    r * r % p == v % p
  }

  ghost predicate OddField(c: Curve) {
    && Prime(c.p) && c.p % 2 == 1 && c.p < Pow(256, 32)
    && (forall v: nat :: c.sqrt(v).Some? ==> c.sqrt(v).value < c.p && RootOf(c.sqrt(v).value, v, c.p))
    && (forall v: nat, r: nat :: c.sqrt(v).None? && r < c.p ==> !RootOf(r, v, c.p))
  }

  ghost predicate OnCurve(c: Curve, q: Point)
  {
    q.x < c.p && 0 <= q.y < c.p && RootOf(q.y, CurveValue(c, q.x), c.p)
  }

  function ScalarSum(c: Curve, j: nat, k: nat): (sum: nat)
    ensures sum < c.n
  {
    (j + k) % c.n
  }

  /**
   * The base point generates a group of order `n` with the homomorphism law; no point has x = 0
   * (`b` is not a square) or y = 0 (the order is odd), as on secp256k1.
   */
  ghost predicate Lawful(c: Curve) {
    && OddField(c)
    && c.sqrt(c.b).None?
    && Pow(256, 31) <= c.n < Pow(256, 32)
    && (forall k: nat :: c.baseMult(k) == INFINITY || (OnCurve(c, c.baseMult(k)) && c.baseMult(k).y != 0))
    && (forall k: nat :: c.baseMult(k) == INFINITY <==> k % c.n == 0)
    && (forall j: nat, k: nat :: c.add(c.baseMult(j), c.baseMult(k)) == c.baseMult(ScalarSum(c, j, k)))
  }

  ghost predicate HashLengths(h: Hashes) {
    && (forall k: Bytes, d: Bytes :: |h.hmacSha512(k, d).left| == |h.hmacSha512(k, d).right| == 32)
    && (forall d: Bytes :: |h.fingerprint(d)| == 4)
    && (forall d: Bytes :: |h.checksum(d)| == 4)
  }

  // ---- point compression -----------------------------------------------------------------------------

  function Compress(q: Point): (key: Bytes)
    ensures |key| >= 33
  {
    [2 + q.y % 2] + Pad(MinBytes(q.x), 32)
  }

  /** The y the source computes for a sign byte and a root; without a root it starts from 0. */
  function ChooseY(p: nat, root: Option<nat>, sign: int): int {
    var y := if root.Some? then root.value else 0;
    if sign != y % 2 then p - y else y
  }

  /** `uint64(key[0]) - 2`; a wrapped-around value differs from both parities, as a negative one does. */
  function SignOf(prefix: Byte): int { prefix as int - 2 }

  function Expand(c: Curve, key: Bytes): Point
    requires |key| > 0
  {
    var x := BytesValue(key[1..]);
    Point(x, ChooseY(c.p, c.sqrt(CurveValue(c, x)), SignOf(key[0])))
  }

  function CurveValue(c: Curve, x: nat): nat { x * x * x + c.b }

  /** `compressPublicKey`. */
  method CompressPublicKey(q: Point) returns (key: Bytes)
    ensures key == Compress(q)
  {
    key := [2 + q.y % 2];
    var xBytes := MinBytes(q.x);
    var i := 0;
    while i < 33 - 1 - |xBytes|
      invariant 0 <= i
      invariant i <= 32 - |xBytes| || (i == 0 && |xBytes| > 32)
      invariant key == [2 + q.y % 2] + seq(i, _ => 0)
    {
      key := key + [0];
      i := i + 1;
    }
    key := key + xBytes;
  }

  /** `expandPublicKey`. `Exp`, `Add` and `ModSqrt` update the accumulators in place. */
  method ExpandPublicKey(c: Curve, key: Bytes) returns (x: nat, y: int)
    requires |key| > 0
    ensures Point(x, y) == Expand(c, key)
  {
    y := 0;
    x := BytesValue(key[1..]);
    var ySquared := x * x * x;
    ySquared := ySquared + c.b;
    var root := c.sqrt(ySquared);
    if root.Some? {
      y := root.value;
    }
    var signY := SignOf(key[0]);
    if signY != y % 2 {
      y := c.p - y;
    }
  }

  lemma ChosenRoot(p: nat, v: nat, root: nat, y: nat)
    requires Prime(p) && p % 2 == 1 && root < p && y < p && RootOf(root, v, p) && RootOf(y, v, p)
    ensures ChooseY(p, Some(root), y % 2) == y
  {
    RootsOfSameSquare(p, root, y);
    hide Prime, RootOf;
  }

  lemma ChosenParity(p: nat, root: Option<nat>, sign: int)
    requires p % 2 == 1 && (sign == 0 || sign == 1)
    ensures ChooseY(p, root, sign) % 2 == sign
  {
  }

  /** `expandPublicKey` undoes `compressPublicKey` on every curve point, whichever root `ModSqrt` picks. */
  lemma ExpandInvertsCompress(c: Curve, q: Point)
    requires OddField(c) && OnCurve(c, q)
    ensures Expand(c, Compress(q)) == q
  {
    hide CurveValue, Prime, RootOf, ChooseY, Pow;
    BytesValuePad(q.x, 32);
    assert Compress(q)[1..] == Pad(MinBytes(q.x), 32);
    var v := CurveValue(c, q.x);
    ChosenRoot(c.p, v, c.sqrt(v).value, q.y);
  }

  /** In the other direction, every 33-byte string with a compression prefix is reproduced exactly. */
  lemma CompressInvertsExpand(c: Curve, key: Bytes)
    requires c.p % 2 == 1 && |key| == 33 && (key[0] == 2 || key[0] == 3)
    ensures Compress(Expand(c, key)) == key
  {
    hide CurveValue, ChooseY, Pow;
    PadBytesValue(key[1..]);
    ChosenParity(c.p, c.sqrt(CurveValue(c, BytesValue(key[1..]))), SignOf(key[0]));
    assert key == [key[0]] + key[1..];
  }

  lemma RootOfZero(p: nat, v: nat, root: nat)
    requires Prime(p) && root < p && RootOf(root, v, p)
    ensures root == 0 <==> v % p == 0
  {
    hide Prime;
    if v % p == 0 {
      RootsOfSameSquare(p, root, 0);
    }
  }

  /** Infinity survives the trip exactly when the curve has no point with x = 0. */
  lemma InfinityRoundTrip(c: Curve)
    requires OddField(c)
    ensures Compress(INFINITY) == [2] + Pad([], 32)
    ensures Expand(c, Compress(INFINITY)) == INFINITY <==> c.sqrt(c.b).None? || c.b % c.p == 0
  {
    hide Prime, Pow, RootOf;
    ZeroIsPadded();
    assert Compress(INFINITY)[1..] == Pad([], 32);
    assert CurveValue(c, 0) == c.b;
    if c.sqrt(c.b).Some? {
      RootOfZero(c.p, c.b, c.sqrt(c.b).value);
    }
  }

  lemma ZeroIsPadded()
    ensures MinBytes(0) == [] && BytesValue(Pad([], 32)) == 0
  {
    PowPositive(256, 32);
    BytesValuePad(0, 32);
  }

  // ---- keys ------------------------------------------------------------------------------------------------

  datatype BipError =
    | HardenedChildOfPublicKey
    | InvalidPrivateKey
    | InvalidPublicKey
    | SerializedKeyWrongSize
    | InvalidChecksum

  const FIRST_HARDENED_CHILD: int := 0x8000_0000
  const PRIVATE_WALLET_VERSION: Bytes := [0x04, 0x88, 0xAD, 0xE4]

  datatype Key = Key(key: Bytes, version: Bytes, childNumber: Bytes, fingerPrint: Bytes,
                     chainCode: Bytes, depth: Byte, isPrivate: bool)

  function PublicKeyFor(c: Curve, key: Bytes): Bytes {
    Compress(c.baseMult(BytesValue(key)))
  }

  /** `CompressedPublicKey`. */
  function Neuter(c: Curve, k: Key): Key {
    k.(version := PRIVATE_WALLET_VERSION, isPrivate := false,
       key := if k.isPrivate then PublicKeyFor(c, k.key) else k.key)
  }

  function AddPrivateKeys(c: Curve, key1: Bytes, key2: Bytes): Bytes {
    Pad(MinBytes(ScalarSum(c, BytesValue(key1), BytesValue(key2))), 32)
  }

  /** `bytes.Compare(a, b) < 0`. */
  predicate BytesLess(a: Bytes, b: Bytes) {
    if |b| == 0 then false else if |a| == 0 then true
    else a[0] < b[0] || (a[0] == b[0] && BytesLess(a[1..], b[1..]))
  }

  /** `validatePrivateKey`. */
  predicate ValidPrivateKey(c: Curve, key: Bytes) {
    key != seq(32, _ => 0) && BytesLess(key, MinBytes(c.n)) && |key| == 32
  }

  /** `validateChildPublicKey`. */
  predicate ValidChildPublicKey(q: Point) { q.x != 0 && q.y != 0 }

  function Intermediary(c: Curve, h: Hashes, k: Key, childIdx: Uint32): Halves {
    var data := if childIdx >= FIRST_HARDENED_CHILD then [0] + k.key
                else if k.isPrivate then PublicKeyFor(c, k.key)
                else k.key;
    h.hmacSha512(k.chainCode, data + FixedBytes(childIdx, 4))
  }

  /** A child of `k` under `hash`: its key, its parent's fingerprint, number, chain code and depth. */
  function ChildOf(h: Hashes, k: Key, childIdx: Uint32, hash: Halves, key: Bytes, parent: Bytes): Key {
    Key(key, PRIVATE_WALLET_VERSION, FixedBytes(childIdx, 4), h.fingerprint(parent), hash.right, (k.depth + 1) % 256,
      k.isPrivate)
  }

  function PrivateChild(c: Curve, h: Hashes, k: Key, childIdx: Uint32): Result<Key, BipError> {
    var hash := Intermediary(c, h, k, childIdx);
    var key := AddPrivateKeys(c, hash.left, k.key);
    if ValidPrivateKey(c, key) then Ok(ChildOf(h, k, childIdx, hash, key, PublicKeyFor(c, k.key)))
    else Err(InvalidPrivateKey)
  }

  function AddPublicKeys(c: Curve, key1: Bytes, key2: Bytes): Bytes
    requires |key1| > 0 && |key2| > 0
  {
    Compress(c.add(Expand(c, key1), Expand(c, key2)))
  }

  function PublicChild(c: Curve, h: Hashes, k: Key, childIdx: Uint32): Result<Key, BipError>
    requires |k.key| > 0
  {
    var hash := Intermediary(c, h, k, childIdx);
    var point := PublicKeyFor(c, hash.left);
    if ValidChildPublicKey(Expand(c, point))
    then Ok(ChildOf(h, k, childIdx, hash, AddPublicKeys(c, point, k.key), k.key))
    else Err(InvalidPublicKey)
  }

  /** The child key of the source, as one expression. */
  function Child(c: Curve, h: Hashes, k: Key, childIdx: Uint32): Result<Key, BipError>
    requires !k.isPrivate ==> |k.key| > 0
  {
    if k.isPrivate then PrivateChild(c, h, k, childIdx)
    else if childIdx >= FIRST_HARDENED_CHILD then Err(HardenedChildOfPublicKey)
    else PublicChild(c, h, k, childIdx)
  }

  /** `NewChildKey`, field by field. */
  method NewChildKey(c: Curve, h: Hashes, key: Key, childIdx: Uint32) returns (r: Result<Key, BipError>)
    requires !key.isPrivate ==> |key.key| > 0
    ensures r == Child(c, h, key, childIdx)
  {
    hide Compress, Expand, Value, FixedBytes, AddPrivateKeys, ValidPrivateKey, Intermediary;
    if !key.isPrivate && childIdx >= FIRST_HARDENED_CHILD {
      return Err(HardenedChildOfPublicKey);
    }
    var intermediary := Intermediary(c, h, key, childIdx);
    var childKey := Key([], [], FixedBytes(childIdx, 4), [], intermediary.right, (key.depth + 1) % 256, key.isPrivate);
    if key.isPrivate {
      childKey := childKey.(version := PRIVATE_WALLET_VERSION);
      var parent := CompressPublicKey(c.baseMult(BytesValue(key.key)));
      childKey := childKey.(fingerPrint := h.fingerprint(parent));
      childKey := childKey.(key := AddPrivateKeys(c, intermediary.left, key.key));
      if !ValidPrivateKey(c, childKey.key) {
        return Err(InvalidPrivateKey);
      }
    } else {
      var keyBytes := CompressPublicKey(c.baseMult(BytesValue(intermediary.left)));
      var x, y := ExpandPublicKey(c, keyBytes);
      if x == 0 || y == 0 {
        return Err(InvalidPublicKey);
      }
      childKey := childKey.(version := PRIVATE_WALLET_VERSION);
      childKey := childKey.(fingerPrint := h.fingerprint(key.key));
      var x2, y2 := ExpandPublicKey(c, key.key);
      var sum := CompressPublicKey(c.add(Point(x, y), Point(x2, y2)));
      childKey := childKey.(key := sum);
    }
    return Ok(childKey);
  }

  // ---- agreement of the two derivations ---------------------------------------------------------------

  /** Compression loses nothing on the points a scalar multiplication can produce, infinity included. */
  lemma ExpandMultiple(c: Curve, k: nat)
    requires Lawful(c)
    ensures Expand(c, Compress(c.baseMult(k))) == c.baseMult(k)
  {
    hide OddField;
    hide OnCurve;
    hide Pow;
    if c.baseMult(k) == INFINITY {
      InfinityRoundTrip(c);
    } else {
      ExpandInvertsCompress(c, c.baseMult(k));
    }
  }

  lemma LeadingByte(a: nat, b: nat, p: nat, x: nat, y: nat)
    requires x < p && y < p
    ensures a * p + x < b * p + y <==> a < b || (a == b && x < y)
  {
    assert (a + 1) * p == a * p + p && (b + 1) * p == b * p + p;
    MulMono(a + 1, b, p);
    MulMono(b + 1, a, p);
  }

  lemma {:induction false} BytesLessIsLess(a: Bytes, b: Bytes)
    requires |a| == |b|
    ensures BytesLess(a, b) <==> BytesValue(a) < BytesValue(b)
  {
    if |a| > 0 {
      BytesLessIsLess(a[1..], b[1..]);
      ValueCons(a);
      ValueCons(b);
      ValueBound(a[1..], 256);
      ValueBound(b[1..], 256);
      LeadingByte(a[0], b[0], Pow(256, |a| - 1), BytesValue(a[1..]), BytesValue(b[1..]));
      hide Value, Pow;
    }
  }

  lemma {:induction false} ValueCons(bs: Bytes)
    requires |bs| > 0
    ensures BytesValue(bs) == bs[0] * Pow(256, |bs| - 1) + BytesValue(bs[1..])
  {
    if |bs| == 1 {
      assert bs[..0] == [];
    } else {
      var front := bs[..|bs| - 1];
      ValueCons(front);
      assert front[1..] == bs[1..][..|bs| - 2];
      var p := Pow(256, |bs| - 2);
      assert bs[0] * p * 256 == bs[0] * (256 * p);
    }
  }

  lemma {:induction false} MinBytesLength(n: nat, width: nat)
    requires width > 0 && Pow(256, width - 1) <= n < Pow(256, width)
    ensures |MinBytes(n)| == width
  {
    if width > 1 {
      MinBytesLength(n / 256, width - 1);
    }
  }

  /** The 32-byte form of a reduced scalar is a valid key unless the scalar is 0. */
  lemma ValidScalar(c: Curve, scalar: nat)
    requires Pow(256, 31) <= c.n < Pow(256, 32) && scalar < c.n
    ensures ValidPrivateKey(c, Pad(MinBytes(scalar), 32)) <==> scalar != 0
    ensures BytesValue(Pad(MinBytes(scalar), 32)) == scalar
  {
    hide Pow, Value, MinBytes;
    var key := Pad(MinBytes(scalar), 32);
    BytesValuePad(scalar, 32);
    MinBytesLength(c.n, 32);
    MinBytesValue(c.n);
    BytesLessIsLess(key, MinBytes(c.n));
    ZeroBytes(key);
  }

  lemma ZeroBytes(key: Bytes)
    requires |key| == 32
    ensures key == seq(32, _ => 0) <==> BytesValue(key) == 0
  {
    hide Pow, Value;
    PowPositive(256, 32);
    BytesValuePad(0, 32);
    PadBytesValue(key);
    assert Pad(MinBytes(0), 32) == seq(32, _ => 0);
  }

  /** The scalar the parent contributes to its child at `childIdx`. */
  function Tweak(c: Curve, h: Hashes, k: Key, childIdx: Uint32): nat {
    BytesValue(Intermediary(c, h, k, childIdx).left)
  }

  /** What the public derivation accepts as the parent's contribution: every finite point. */
  lemma AcceptedContribution(c: Curve, t: nat)
    requires Lawful(c)
    ensures ValidChildPublicKey(Expand(c, Compress(c.baseMult(t)))) <==> t % c.n != 0
  {
    hide Prime, Pow;
    ExpandMultiple(c, t);
    assert CurveValue(c, 0) == c.b;
  }

  /** Both derivations hash the same data: the compressed public key of the parent. */
  lemma SameIntermediary(c: Curve, h: Hashes, k: Key, childIdx: Uint32)
    requires k.isPrivate && childIdx < FIRST_HARDENED_CHILD
    ensures Intermediary(c, h, Neuter(c, k), childIdx) == Intermediary(c, h, k, childIdx)
  {
  }

  /**
   * Exactly when each derivation succeeds: the private one unless the child scalar is 0, the public
   * one unless the parent's contribution is 0.
   */
  lemma WhenDerivationsSucceed(c: Curve, h: Hashes, k: Key, childIdx: Uint32)
    requires Lawful(c) && k.isPrivate && childIdx < FIRST_HARDENED_CHILD
    ensures Child(c, h, k, childIdx).Ok? <==> ScalarSum(c, Tweak(c, h, k, childIdx), BytesValue(k.key)) != 0
    ensures Child(c, h, Neuter(c, k), childIdx).Ok? <==> Tweak(c, h, k, childIdx) % c.n != 0
  {
    var t := Tweak(c, h, k, childIdx);
    assert Pow(256, 31) <= c.n < Pow(256, 32);
    hide Lawful, Compress, Expand, ValidPrivateKey, ValidChildPublicKey, Value, MinBytes, Pow, Pad, ScalarSum;
    SameIntermediary(c, h, k, childIdx);
    AcceptedContribution(c, t);
    ValidScalar(c, ScalarSum(c, t, BytesValue(k.key)));
  }

  /** Adding scalars first or points first gives the same compressed key. */
  lemma AddThenCompress(c: Curve, key1: Bytes, key2: Bytes)
    requires Lawful(c)
    ensures PublicKeyFor(c, AddPrivateKeys(c, key1, key2)) ==
            AddPublicKeys(c, PublicKeyFor(c, key1), PublicKeyFor(c, key2))
  {
    var t, s := BytesValue(key1), BytesValue(key2);
    assert Pow(256, 31) <= c.n < Pow(256, 32);
    assert c.add(c.baseMult(t), c.baseMult(s)) == c.baseMult(ScalarSum(c, t, s));
    hide Lawful, Compress, Expand, ValidPrivateKey, Value, MinBytes, Pow, Pad, ScalarSum;
    ExpandMultiple(c, t);
    ExpandMultiple(c, s);
    ValidScalar(c, ScalarSum(c, t, s));
  }

  /** Non-hardened private and public derivation agree in every field whenever both succeed. */
  lemma DerivationsCommute(c: Curve, h: Hashes, k: Key, childIdx: Uint32)
    requires Lawful(c) && k.isPrivate && childIdx < FIRST_HARDENED_CHILD
    ensures var private, public := Child(c, h, k, childIdx), Child(c, h, Neuter(c, k), childIdx);
            private.Ok? && public.Ok? ==> Neuter(c, private.value) == public.value
  {
    hide Lawful, Compress, AddPublicKeys, AddPrivateKeys, Value, FixedBytes;
    SameIntermediary(c, h, k, childIdx);
    AddThenCompress(c, Intermediary(c, h, k, childIdx).left, k.key);
  }

  /** Hashes that answer every key and message alike. */
  function ConstantHashes(left: Bytes): Hashes {
    Hashes((key, data) => Halves(left, seq(32, _ => 0)), data => [0, 0, 0, 0], data => [0, 0, 0, 0])
  }

  lemma ConstantLengths(left: Bytes)
    requires |left| == 32
    ensures HashLengths(ConstantHashes(left))
  {
  }

  lemma ConstantTweak(c: Curve, left: Bytes, k: Key, childIdx: Uint32)
    ensures Tweak(c, ConstantHashes(left), k, childIdx) == BytesValue(left)
  {
    hide Value, Compress, FixedBytes;
  }

  predicate ZeroScalar(c: Curve, scalar: nat) { scalar % c.n == 0 }

  lemma CancellingScalar(c: Curve, scalar: nat) returns (rest: nat)
    requires !ZeroScalar(c, scalar)
    ensures rest < c.n && ScalarSum(c, rest, scalar) == 0 && !ZeroScalar(c, rest)
  {
    rest := c.n - scalar % c.n;
    assert rest + scalar == (scalar / c.n + 1) * c.n + 0;
    DivModUnique(scalar / c.n + 1, 0, c.n);
    DivModUnique(0, rest, c.n);
  }

  lemma ScalarsDecide(c: Curve, h: Hashes, k: Key, childIdx: Uint32)
    requires Lawful(c) && k.isPrivate && childIdx < FIRST_HARDENED_CHILD
    ensures Child(c, h, k, childIdx).Ok? <==> ScalarSum(c, Tweak(c, h, k, childIdx), BytesValue(k.key)) != 0
    ensures Child(c, h, Neuter(c, k), childIdx).Ok? <==> !ZeroScalar(c, Tweak(c, h, k, childIdx))
  {
    WhenDerivationsSucceed(c, h, k, childIdx);
  }

  /** For every private key some hash makes only the private derivation fail: the scalars cancel out. */
  lemma PrivateFailsAlone(c: Curve, k: Key, childIdx: Uint32)
    requires Lawful(c) && k.isPrivate && childIdx < FIRST_HARDENED_CHILD && !ZeroScalar(c, BytesValue(k.key))
    ensures exists h :: HashLengths(h) && Child(c, h, k, childIdx).Err? && Child(c, h, Neuter(c, k), childIdx).Ok?
  {
    assert c.n < Pow(256, 32);
    hide *;
    var rest := CancellingScalar(c, BytesValue(k.key));
    var left := Pad(MinBytes(rest), 32);
    BytesValuePad(rest, 32);
    ConstantLengths(left);
    ConstantTweak(c, left, k, childIdx);
    ScalarsDecide(c, ConstantHashes(left), k, childIdx);
  }

  /** For every private key some hash makes only the public derivation fail: the parent contributes nothing. */
  lemma PublicFailsAlone(c: Curve, k: Key, childIdx: Uint32)
    requires Lawful(c) && k.isPrivate && childIdx < FIRST_HARDENED_CHILD && !ZeroScalar(c, BytesValue(k.key))
    ensures exists h :: HashLengths(h) && Child(c, h, k, childIdx).Ok? && Child(c, h, Neuter(c, k), childIdx).Err?
  {
    assert ScalarSum(c, 0, BytesValue(k.key)) != 0 && ZeroScalar(c, 0);
    hide *;
    var left := Pad([], 32);
    ZeroIsPadded();
    ConstantLengths(left);
    ConstantTweak(c, left, k, childIdx);
    ScalarsDecide(c, ConstantHashes(left), k, childIdx);
  }

  // ---- the serialized form ---------------------------------------------------------------------------------

  predicate WellFormed(k: Key) {
    && |k.version| == 4 && |k.fingerPrint| == 4 && |k.childNumber| == 4 && |k.chainCode| == 32
    && |k.key| == (if k.isPrivate then 32 else 33)
    && (!k.isPrivate ==> k.key[0] != 0)
  }

  /** `Serialize`. */
  function Serialize(h: Hashes, k: Key): Bytes
  {
    Payload(k) + h.checksum(Payload(k))
  }

  function Payload(k: Key): Bytes {
    k.version + [k.depth] + k.fingerPrint + k.childNumber + k.chainCode + (if k.isPrivate then [0] + k.key else k.key)
  }

  /** `Deserialize`. */
  function Deserialize(h: Hashes, data: Bytes): Result<Key, BipError>
  {
    if |data| != 82 then Err(SerializedKeyWrongSize)
    else if h.checksum(data[..78]) != data[78..] then Err(InvalidChecksum)
    else Ok(Key(if data[45] == 0 then data[46..78] else data[45..78],
                data[0..4], data[9..13], data[5..9], data[13..45], data[4], data[45] == 0))
  }

  /** Reading a serialized key gives the key back exactly when its fields have their proper sizes. */
  lemma DeserializeInvertsSerialize(h: Hashes, k: Key)
    requires HashLengths(h)
    ensures Deserialize(h, Serialize(h, k)) == Ok(k) <==> WellFormed(k)
  {
    var data := Serialize(h, k);
    if WellFormed(k) {
      assert data[..78] == Payload(k);
      assert data[0..4] == k.version && data[5..9] == k.fingerPrint && data[9..13] == k.childNumber;
      assert data[13..45] == k.chainCode;
      assert data[45..78] == if k.isPrivate then [0] + k.key else k.key;
      assert data[46..78] == data[45..78][1..];
    }
  }

  /** Conversely, an accepted serialization is the serialization of the key it yields. */
  lemma SerializeInvertsDeserialize(h: Hashes, data: Bytes)
    requires HashLengths(h) && Deserialize(h, data).Ok?
    ensures WellFormed(Deserialize(h, data).value) && Serialize(h, Deserialize(h, data).value) == data
  {
    var k := Deserialize(h, data).value;
    assert Payload(k) == data[..78];
    assert data == data[..78] + data[78..];
  }

  /** A derived private key is well-formed, so it survives serialization. */
  lemma DerivedKeySerializes(c: Curve, h: Hashes, k: Key, childIdx: Uint32)
    requires HashLengths(h) && k.isPrivate
    ensures var child := Child(c, h, k, childIdx);
            child.Ok? ==> Deserialize(h, Serialize(h, child.value)) == child
  {
    if Child(c, h, k, childIdx).Err? { return; }
    hide Compress, BytesLess, MinBytes, Value;
    DeserializeInvertsSerialize(h, Child(c, h, k, childIdx).value);
  }

  /** What scalar multiplication yields compresses to 33 bytes behind a prefix of 2 or 3. */
  lemma MultipleIsCompressed(c: Curve, scalar: nat)
    requires Lawful(c)
    ensures var key := Compress(c.baseMult(scalar)); |key| == 33 && key[0] != 0
  {
    var q := c.baseMult(scalar);
    PowPositive(256, 32);
    assert q.x < Pow(256, 32);
    hide Lawful, Pow, Value;
    PadMinBytes(q.x, 32);
  }

  /** A derived public key is well-formed too, if its parent belongs to some scalar. */
  lemma DerivedPublicKeySerializes(c: Curve, h: Hashes, k: Key, scalar: nat, childIdx: Uint32)
    requires Lawful(c) && HashLengths(h) && !k.isPrivate && k.key == Compress(c.baseMult(scalar))
    ensures var child := Child(c, h, k, childIdx);
            child.Ok? ==> Deserialize(h, Serialize(h, child.value)) == child
  {
    var child := Child(c, h, k, childIdx);
    if child.Err? { return; }
    var t := Tweak(c, h, k, childIdx);
    var sum := ScalarSum(c, t, scalar);
    assert c.add(c.baseMult(t), c.baseMult(scalar)) == c.baseMult(sum);
    hide Lawful, Compress, Expand, Pow, Value, MinBytes;
    ExpandMultiple(c, t);
    ExpandMultiple(c, scalar);
    assert child.value.key == Compress(c.baseMult(sum));
    MultipleIsCompressed(c, sum);
    assert WellFormed(child.value);
    DeserializeInvertsSerialize(h, child.value);
  }

  // ---- the buffer behind a deserialized key ------------------------------------------------------------------

  /** The buffer after `append` has written the child index behind the key, where the checksum was. */
  function Overwritten(data: Bytes, childIdx: Uint32): Bytes
    requires |data| == 82
  {
    data[..78] + FixedBytes(childIdx, 4)
  }

  /**
   * `append(data, childIndexBytes...)` for a public key whose slice points into the buffer it was deserialized
   * from: there is room behind the slice, so the bytes are written into that buffer.
   */
  method AppendChildIndex(buffer: array<Byte>, childIdx: Uint32) returns (data: Bytes)
    requires buffer.Length == 82
    modifies buffer
    ensures data == old(buffer[45..78]) + FixedBytes(childIdx, 4)
    ensures buffer[..] == Overwritten(old(buffer[..]), childIdx)
  {
    var childIndexBytes := FixedBytes(childIdx, 4);
    for i := 0 to 4
      invariant buffer[..78] == old(buffer[..78])
      invariant forall j :: 0 <= j < i ==> buffer[78 + j] == childIndexBytes[j]
    {
      buffer[78 + i] := childIndexBytes[i];
    }
    assert buffer[..] == buffer[..78] + buffer[78..] && buffer[78..] == childIndexBytes;
    assert buffer[..78][45..] == buffer[45..78] && old(buffer[..78])[45..] == old(buffer[45..78]);
    return buffer[45..82];
  }

  /** The buffer still deserializes, to the same key, exactly if the index happens to be the checksum. */
  lemma DerivingSpoilsBuffer(h: Hashes, data: Bytes, childIdx: Uint32)
    requires HashLengths(h) && Deserialize(h, data).Ok?
    ensures |data| == 82
    ensures Deserialize(h, Overwritten(data, childIdx)) ==
              if FixedBytes(childIdx, 4) == data[78..] then Deserialize(h, data) else Err(InvalidChecksum)
  {
    var after := Overwritten(data, childIdx);
    hide FixedBytes;
    assert after[..78] == data[..78] && after[78..] == FixedBytes(childIdx, 4);
    assert data == data[..78] + data[78..];
  }
}
