/**
 * What each child derivation hashes and what its result is, written out from BIP 32: the private parent
 * key to private child key and public parent key to public child key functions.
 */
module Bip32Messages {
  import opened Common
  import opened Numbers
  import opened PrimeField
  import opened Bip32

  /** The four bytes of a child index, most significant first. */
  function IndexBytes(i: Uint32): Bytes {
    [i / 16777216, i / 65536 % 256, i / 256 % 256, i % 256]
  }

  lemma IndexIsBigEndian(i: Uint32)
    ensures FixedBytes(i, 4) == IndexBytes(i)
  {
    assert i / 256 / 256 == i / 65536 && i / 65536 / 256 == i / 16777216;
    assert FixedBytes(i, 4) == FixedBytes(i / 256, 3) + [i % 256];
    assert FixedBytes(i / 256, 3) == FixedBytes(i / 65536, 2) + [i / 256 % 256];
    assert FixedBytes(i / 65536, 2) == FixedBytes(i / 16777216, 1) + [i / 65536 % 256];
    assert FixedBytes(i / 16777216, 1) == FixedBytes(i / 16777216 / 256, 0) + [i / 16777216 % 256];
  }

  /** The compressed form of a point: 2 or 3 by the parity of y, then x in 32 bytes. */
  lemma CompressedForm(q: Point)
    requires q.x < Pow(256, 32)
    ensures var key := Compress(q);
            && |key| == 33 && key[0] == (if q.y % 2 == 0 then 2 else 3) && BytesValue(key[1..]) == q.x
  {
    hide Pow, Value, MinBytes;
    BytesValuePad(q.x, 32);
    assert Compress(q)[1..] == Pad(MinBytes(q.x), 32);
  }

  /** The fields that every child takes over. */
  predicate Descends(child: Key, h: Hashes, k: Key, childIdx: Uint32, hash: Halves, parent: Bytes) {
    && child.chainCode == hash.right
    && child.childNumber == IndexBytes(childIdx)
    && child.depth == (k.depth + 1) % 256
    && child.fingerPrint == h.fingerprint(parent)
    && child.version == [0x04, 0x88, 0xAD, 0xE4]
    && child.isPrivate == k.isPrivate
  }

  /** A private child under `hash`: its scalar is the sum of the left half and the scalar of the parent. */
  ghost predicate IsPrivateChild(r: Result<Key, BipError>, c: Curve, h: Hashes, k: Key, childIdx: Uint32,
                                 hash: Halves) {
    HasScalar(r, c, h, k, childIdx, hash, (BytesValue(hash.left) + BytesValue(k.key)) % c.n)
  }

  ghost predicate HasScalar(r: Result<Key, BipError>, c: Curve, h: Hashes, k: Key, childIdx: Uint32, hash: Halves,
                            scalar: nat) {
    if scalar == 0 then r == Err(InvalidPrivateKey)
    else
      && r.Ok? && |r.value.key| == 32 && BytesValue(r.value.key) == scalar
      && Descends(r.value, h, k, childIdx, hash, Compress(c.baseMult(BytesValue(k.key))))
  }

  /** A public child under `hash`: the point of the left half added to the point of the parent. */
  ghost predicate IsPublicChild(r: Result<Key, BipError>, c: Curve, h: Hashes, k: Key, childIdx: Uint32, hash: Halves)
    requires |k.key| > 0
  {
    if BytesValue(hash.left) % c.n == 0 then r == Err(InvalidPublicKey)
    else
      && r.Ok? && r.value.key == Compress(c.add(c.baseMult(BytesValue(hash.left)), Expand(c, k.key)))
      && Descends(r.value, h, k, childIdx, hash, k.key)
  }

  lemma ChildHasScalar(c: Curve, h: Hashes, k: Key, childIdx: Uint32, hash: Halves)
    requires Lawful(c) && k.isPrivate && hash == Intermediary(c, h, k, childIdx)
    ensures HasScalar(Child(c, h, k, childIdx), c, h, k, childIdx, hash,
                      ScalarSum(c, BytesValue(hash.left), BytesValue(k.key)))
  {
    var scalar := ScalarSum(c, BytesValue(hash.left), BytesValue(k.key));
    assert Pow(256, 31) <= c.n < Pow(256, 32);
    hide Lawful, ScalarSum, Intermediary, Compress, ValidPrivateKey, Value, MinBytes, Pow, FixedBytes;
    IndexIsBigEndian(childIdx);
    ValidScalar(c, scalar);
  }

  lemma PrivateChildUnder(c: Curve, h: Hashes, k: Key, childIdx: Uint32, hash: Halves)
    requires Lawful(c) && k.isPrivate && hash == Intermediary(c, h, k, childIdx)
    ensures IsPrivateChild(Child(c, h, k, childIdx), c, h, k, childIdx, hash)
  {
    hide Lawful, Intermediary, Child, HasScalar, Value;
    ChildHasScalar(c, h, k, childIdx, hash);
  }

  /** A hardened child is derived from the private key behind a zero byte. */
  lemma HardenedChild(c: Curve, h: Hashes, k: Key, childIdx: Uint32)
    requires Lawful(c) && k.isPrivate && childIdx >= 0x8000_0000
    ensures IsPrivateChild(Child(c, h, k, childIdx), c, h, k, childIdx,
                           h.hmacSha512(k.chainCode, [0] + k.key + IndexBytes(childIdx)))
  {
    hide Lawful, Compress, Value, MinBytes, Pow, FixedBytes, IsPrivateChild;
    IndexIsBigEndian(childIdx);
    PrivateChildUnder(c, h, k, childIdx, h.hmacSha512(k.chainCode, [0] + k.key + IndexBytes(childIdx)));
  }

  /** Any other child of a private key is derived from its compressed public key. */
  lemma NormalPrivateChild(c: Curve, h: Hashes, k: Key, childIdx: Uint32)
    requires Lawful(c) && k.isPrivate && childIdx < 0x8000_0000
    ensures IsPrivateChild(Child(c, h, k, childIdx), c, h, k, childIdx,
                           h.hmacSha512(k.chainCode, Compress(c.baseMult(BytesValue(k.key))) + IndexBytes(childIdx)))
  {
    hide Lawful, Compress, Value, MinBytes, Pow, FixedBytes, IsPrivateChild;
    IndexIsBigEndian(childIdx);
    PrivateChildUnder(c, h, k, childIdx,
                      h.hmacSha512(k.chainCode, Compress(c.baseMult(BytesValue(k.key))) + IndexBytes(childIdx)));
  }

  /** A public key has normal children only, derived from its own bytes. */
  lemma PublicChildren(c: Curve, h: Hashes, k: Key, childIdx: Uint32)
    requires Lawful(c) && !k.isPrivate && |k.key| > 0
    ensures if childIdx >= 0x8000_0000 then Child(c, h, k, childIdx) == Err(HardenedChildOfPublicKey)
            else IsPublicChild(Child(c, h, k, childIdx), c, h, k, childIdx,
                               h.hmacSha512(k.chainCode, k.key + IndexBytes(childIdx)))
  {
    hide Lawful, Compress, Expand, ValidChildPublicKey, Value, MinBytes, Pow, FixedBytes;
    IndexIsBigEndian(childIdx);
    var t := BytesValue(h.hmacSha512(k.chainCode, k.key + IndexBytes(childIdx)).left);
    AcceptedContribution(c, t);
    ExpandMultiple(c, t);
  }

  /** The two hash tables agree on the messages that begin with a zero byte, or on all the others. */
  ghost predicate AgreeOn(g: Hashes, h: Hashes, zero: bool) {
    && g.fingerprint == h.fingerprint
    && forall key: Bytes, data: Bytes :: data != [] && (data[0] == 0 <==> zero) ==>
                                           g.hmacSha512(key, data) == h.hmacSha512(key, data)
  }

  /** Hardened children depend on no message that a normal child could use. */
  lemma HardenedMessagesBeginWithZero(c: Curve, g: Hashes, h: Hashes, k: Key, childIdx: Uint32)
    requires AgreeOn(g, h, true) && k.isPrivate && childIdx >= 0x8000_0000
    ensures Child(c, g, k, childIdx) == Child(c, h, k, childIdx)
  {
    hide Compress, Value, MinBytes, FixedBytes, ValidPrivateKey;
    var data := [0] + k.key + FixedBytes(childIdx, 4);
    assert data[0] == 0;
    assert g.hmacSha512(k.chainCode, data) == h.hmacSha512(k.chainCode, data);
  }

  /** Normal children depend on no message that a hardened child could use. */
  lemma NormalMessagesDoNot(c: Curve, g: Hashes, h: Hashes, k: Key, childIdx: Uint32)
    requires AgreeOn(g, h, false) && childIdx < 0x8000_0000
    requires !k.isPrivate ==> |k.key| > 0 && k.key[0] != 0
    ensures Child(c, g, k, childIdx) == Child(c, h, k, childIdx)
  {
    var parent := if k.isPrivate then Compress(c.baseMult(BytesValue(k.key))) else k.key;
    var data := parent + FixedBytes(childIdx, 4);
    assert data[0] != 0;
    hide Compress, Expand, Value, MinBytes, FixedBytes, ValidPrivateKey, ValidChildPublicKey;
    assert g.hmacSha512(k.chainCode, data) == h.hmacSha512(k.chainCode, data);
  }

  /** The layout of a serialized key, byte by byte. */
  lemma SerializedLayout(h: Hashes, k: Key)
    requires HashLengths(h) && WellFormed(k)
    ensures var data := Serialize(h, k);
            && |data| == 82
            && data[0..4] == k.version && data[4] == k.depth && data[5..9] == k.fingerPrint
            && data[9..13] == k.childNumber && data[13..45] == k.chainCode
            && (if k.isPrivate then data[45] == 0 && data[46..78] == k.key else data[45..78] == k.key)
            && data[78..82] == h.checksum(data[..78])
  {
    DeserializeInvertsSerialize(h, k);
  }
}
