/**
 * crypto/bip/bip39.go: entropy to mnemonic sentence and back, with both decoders.
 * SHA-256 is a parameter of which only the output length is used; the word list is a field,
 * as in the source, and the codec assumes 2048 distinct words free of white space.
 */
module Bip39 {
  import opened Common
  import opened Numbers
  import opened Sentences

  datatype BipError =
    | InvalidMnemonic
    | EntropyLengthInvalid
    | ChecksumIncorrect
    | WordNotFound(word: string)

  type Hash = Bytes -> Bytes

  ghost predicate IsSha256(sha: Hash) {
    forall d: Bytes :: |sha(d)| == 32
  }

  // ---- base-2048 digits ------------------------------------------------------------------------

  function WordDigits(n: nat, width: nat): (ds: seq<nat>)
    ensures |ds| == width && forall i :: 0 <= i < width ==> ds[i] < 2048
  {
    if width == 0 then [] else WordDigits(n / 2048, width - 1) + [n % 2048]
  }

  lemma LastDigit(ds: seq<nat>, n: nat)
    requires |ds| > 0 && ds == WordDigits(n, |ds|)
    ensures ds[|ds| - 1] == n % 2048 && ds[..|ds| - 1] == WordDigits(n / 2048, |ds| - 1)
  {
  }

  lemma SplitWord(v: nat, last: nat)
    requires last < 2048
    ensures (v * 2048 + last) / 2048 == v && (v * 2048 + last) % 2048 == last
  {
  }

  lemma {:induction false} WordDigitsOfValue(ds: seq<nat>)
    requires ValidDigits(ds, 2048)
    ensures WordDigits(Value(ds, 2048), |ds|) == ds
  {
    hide Value;
    if |ds| > 0 {
      var front, last := ds[..|ds| - 1], ds[|ds| - 1];
      WordDigitsOfValue(front);
      assert ds == front + [last];
      ValueSnoc(front, last, 2048);
      SplitWord(Value(front, 2048), last);
    } else {
      assert ds == [];
    }
  }

  lemma {:induction false} ValueOfWordDigits(n: nat, width: nat)
    requires n < Pow(2048, width)
    ensures Value(WordDigits(n, width), 2048) == n
  {
    if width > 0 {
      ValueOfWordDigits(n / 2048, width - 1);
      ValueSnoc(WordDigits(n / 2048, width - 1), n % 2048, 2048);
    }
  }

  // ---- sizes -----------------------------------------------------------------------------------

  predicate ValidEntropySize(size: nat) { size % 4 == 0 && 16 <= size <= 32 }

  predicate ValidWordCount(count: nat) { count % 3 == 0 && 12 <= count <= 24 }

  /** 2048 = 2^11 and 256 = 2^8: a sentence of 3m words has exactly the 33m bits of its data. */
  lemma Sizes(m: nat)
    ensures Pow(2048, 3 * m) == Shl(Pow(256, 4 * m), m)
  {
    TwoToEleven();
    assert Pow(2, 8) == 256;
    PowPow(2, 11, 3 * m);
    PowPow(2, 8, 4 * m);
    PowAdd(2, 32 * m, m);
    ShlIsMul(Pow(256, 4 * m), m);
  }

  // ---- specification -----------------------------------------------------------------------------

  /** The leading `k` bits of a byte. */
  function TopBits(b: Byte, k: nat): nat
    requires k <= 8
  {
    Shr(b, 8 - k)
  }

  lemma TopBitsBound(b: Byte, k: nat)
    requires k <= 8
    ensures TopBits(b, k) < Pow(2, k)
  {
    assert Pow(2, 8) == 256;
    PowAdd(2, k, 8 - k);
    ShlIsMul(Pow(2, k), 8 - k);
    ShrBound(b, Pow(2, k), 8 - k);
  }

  function Checksum(data: Bytes, sha: Hash): (c: nat)
    requires |data| / 4 <= 8 && |sha(data)| > 0
    ensures c < Pow(2, |data| / 4)
  {
    TopBitsBound(sha(data)[0], |data| / 4);
    TopBits(sha(data)[0], |data| / 4)
  }

  /** The data followed by its checksum bits, as one number. */
  function Checksummed(data: Bytes, sha: Hash): nat
    requires |data| / 4 <= 8 && |sha(data)| > 0
  {
    Shl(BytesValue(data), |data| / 4) + Checksum(data, sha)
  }

  lemma NoBits(n: nat, b: Byte)
    ensures Shl(n, 0) + TopBits(b, 0) == n
  {
    TopBitsBound(b, 0);
  }

  /** One more leading bit. */
  lemma NextBit(n: nat, b: Byte, i: nat)
    requires i < 8
    ensures Shl(n, i + 1) == 2 * Shl(n, i)
    ensures TopBits(b, i + 1) == 2 * TopBits(b, i) + if BitAnd(b, Pow(2, 7 - i)) > 0 then 1 else 0
  {
    hide BitAnd, Pow, Shr;
    ShrStep(b, 7 - i);
    AndBit(b, 7 - i);
  }

  lemma OrOne(n: nat)
    ensures BitOr(n * 2, 1) == n * 2 + 1
  {
    OrZero(n);
  }

  predicate GoodList(list: seq<string>) {
    && |list| == 2048
    && (forall i :: 0 <= i < |list| ==> IsWord(list[i]))
    && (forall i, j :: 0 <= i < j < |list| ==> list[i] != list[j])
  }

  /** `index` finds a position of every listed word, and knows no other word. */
  predicate Indexes(index: map<string, nat>, list: seq<string>) {
    && (forall i :: 0 <= i < |list| ==> list[i] in index)
    && (forall w :: w in index ==> index[w] < |list| && list[index[w]] == w)
  }

  function WordsAt(list: seq<string>, ds: seq<nat>): (ws: seq<string>)
    requires forall i :: 0 <= i < |ds| ==> ds[i] < |list|
    ensures |ws| == |ds|
  {
    seq(|ds|, i requires 0 <= i < |ds| => list[ds[i]])
  }

  /** The words of the mnemonic of `entropy`. */
  function SentenceWords(entropy: Bytes, list: seq<string>, sha: Hash): (ws: seq<string>)
    requires ValidEntropySize(|entropy|) && |list| == 2048 && |sha(entropy)| > 0
    ensures |ws| == |entropy| / 4 * 3
  {
    WordsAt(list, WordDigits(Checksummed(entropy, sha), |entropy| / 4 * 3))
  }

  function IndicesOf(ws: seq<string>, index: map<string, nat>): (ds: seq<nat>)
    requires forall i :: 0 <= i < |ws| ==> ws[i] in index
    ensures |ds| == |ws|
  {
    seq(|ws|, i requires 0 <= i < |ws| => index[ws[i]])
  }

  /** The number whose base-2048 digits are the word positions. */
  function SentenceNumber(ws: seq<string>, index: map<string, nat>): nat
    requires forall i :: 0 <= i < |ws| ==> ws[i] in index
  {
    Value(IndicesOf(ws, index), 2048)
  }

  lemma SentenceNumberSnoc(ws: seq<string>, i: nat, index: map<string, nat>)
    requires i < |ws| && forall j :: 0 <= j <= i ==> ws[j] in index
    ensures SentenceNumber(ws[..i + 1], index) == SentenceNumber(ws[..i], index) * 2048 + index[ws[i]]
  {
    ValueSnoc(IndicesOf(ws[..i], index), index[ws[i]], 2048);
    assert IndicesOf(ws[..i + 1], index) == IndicesOf(ws[..i], index) + [index[ws[i]]];
  }

  function FirstUnknown(ws: seq<string>, index: map<string, nat>): (k: nat)
    ensures k <= |ws|
    ensures forall i :: 0 <= i < k ==> ws[i] in index
    ensures k < |ws| ==> ws[k] !in index
  {
    if |ws| == 0 || ws[0] !in index then 0 else 1 + FirstUnknown(ws[1..], index)
  }

  /** Entropy and checksum bits read as one number: the entropy, if the checksum is its own. */
  ghost function DecodeNumber(n: nat, m: nat, sha: Hash): Result<Bytes, BipError>
    requires m <= 8 && IsSha256(sha)
  {
    var entropy := FixedBytes(Shr(n, m), 4 * m);
    if Low(n, m) == Checksum(entropy, sha) then Ok(entropy) else Err(ChecksumIncorrect)
  }

  /** What the words of a sentence decode to: the data bits, if the checksum bits agree with them. */
  ghost function Decode(ws: seq<string>, index: map<string, nat>, sha: Hash): Result<Bytes, BipError>
    requires IsSha256(sha)
  {
    var k := FirstUnknown(ws, index);
    if !ValidWordCount(|ws|) then Err(InvalidMnemonic)
    else if k < |ws| then Err(WordNotFound(ws[k]))
    else DecodeNumber(SentenceNumber(ws, index), |ws| / 3, sha)
  }

  /**
   * The second decoder on the same words. No outcome is `ChecksumIncorrect`: what the first decoder
   * accepts, the second accepts.
   */
  ghost function SecondDecode(ws: seq<string>, raw: bool, index: map<string, nat>, sha: Hash): Result<Bytes, BipError>
    requires IsSha256(sha)
  {
    var decoded := Decode(ws, index, sha);
    if decoded.Err? then Err(InvalidMnemonic)
    else if raw then decoded
    else Ok(FixedBytes(SentenceNumber(ws, index), |ws| / 3 * 4 + 1))
  }

  lemma {:induction false} UnknownAt(ws: seq<string>, k: nat, index: map<string, nat>)
    requires k <= |ws| && (forall i :: 0 <= i < k ==> ws[i] in index) && (k < |ws| ==> ws[k] !in index)
    ensures FirstUnknown(ws, index) == k
  {
    if k > 0 { UnknownAt(ws[1..], k - 1, index); }
  }

  // ---- the two directions of the codec -----------------------------------------------------------

  lemma ChecksummedFits(entropy: Bytes, sha: Hash)
    requires ValidEntropySize(|entropy|) && |sha(entropy)| > 0
    ensures var m := |entropy| / 4;
            && Checksummed(entropy, sha) < Pow(2048, 3 * m)
            && Shr(Checksummed(entropy, sha), m) == BytesValue(entropy)
            && Low(Checksummed(entropy, sha), m) == Checksum(entropy, sha)
  {
    hide Shl, Shr, Low, Pow, Value, Checksum;
    var m := |entropy| / 4;
    Sizes(m);
    ValueBound(entropy, 256);
    ShlBounds(BytesValue(entropy), 0, m);
    ShlBounds(BytesValue(entropy) + 1, Pow(256, 4 * m), m);
    JoinBits(BytesValue(entropy), m, Checksum(entropy, sha));
  }

  lemma IndicesOfWordsAt(list: seq<string>, index: map<string, nat>, ds: seq<nat>)
    requires GoodList(list) && Indexes(index, list)
    requires forall i :: 0 <= i < |ds| ==> ds[i] < 2048
    ensures forall i :: 0 <= i < |ds| ==> WordsAt(list, ds)[i] in index
    ensures IndicesOf(WordsAt(list, ds), index) == ds
  {
  }

  lemma WordsAtIndicesOf(list: seq<string>, index: map<string, nat>, ws: seq<string>)
    requires Indexes(index, list)
    requires forall i :: 0 <= i < |ws| ==> ws[i] in index
    ensures forall i :: 0 <= i < |ws| ==> IndicesOf(ws, index)[i] < |list|
    ensures WordsAt(list, IndicesOf(ws, index)) == ws
  {
  }

  lemma DecodeChecksummed(entropy: Bytes, sha: Hash)
    requires ValidEntropySize(|entropy|) && IsSha256(sha)
    ensures DecodeNumber(Checksummed(entropy, sha), |entropy| / 4, sha) == Ok(entropy)
  {
    ChecksummedFits(entropy, sha);
    FixedBytesOfValue(entropy);
  }

  lemma AllKnown(ws: seq<string>, index: map<string, nat>)
    requires forall i :: 0 <= i < |ws| ==> ws[i] in index
    ensures FirstUnknown(ws, index) == |ws|
  {
  }

  /** Every legal entropy is recovered from its own mnemonic, also after joining and splitting. */
  lemma DecodeSentence(entropy: Bytes, list: seq<string>, index: map<string, nat>, sha: Hash)
    requires ValidEntropySize(|entropy|) && GoodList(list) && Indexes(index, list) && IsSha256(sha)
    ensures Decode(Fields(Join(SentenceWords(entropy, list, sha))), index, sha) == Ok(entropy)
  {
    hide WordDigits, Value, Shl, Pow, Fields, Join, WordLength, FixedBytes, Checksummed, FirstUnknown, SentenceNumber,
         DecodeNumber, IndicesOf;
    var ws := SentenceWords(entropy, list, sha);
    FieldsOfJoin(ws);
    SentenceNumberOf(entropy, list, index, sha);
    AllKnown(ws, index);
    DecodeChecksummed(entropy, sha);
  }

  lemma SentenceNumberOf(entropy: Bytes, list: seq<string>, index: map<string, nat>, sha: Hash)
    requires ValidEntropySize(|entropy|) && GoodList(list) && Indexes(index, list) && |sha(entropy)| > 0
    ensures var ws := SentenceWords(entropy, list, sha);
            && (forall i :: 0 <= i < |ws| ==> ws[i] in index)
            && SentenceNumber(ws, index) == Checksummed(entropy, sha)
  {
    var ds := WordDigits(Checksummed(entropy, sha), |entropy| / 4 * 3);
    IndicesOfWordsAt(list, index, ds);
    ChecksummedFits(entropy, sha);
    ValueOfWordDigits(Checksummed(entropy, sha), |entropy| / 4 * 3);
  }

  lemma ChecksummedOfDecoded(n: nat, m: nat, sha: Hash)
    requires 4 <= m <= 8 && IsSha256(sha) && n < Pow(2048, 3 * m)
    requires DecodeNumber(n, m, sha).Ok?
    ensures |DecodeNumber(n, m, sha).value| == 4 * m
    ensures Checksummed(DecodeNumber(n, m, sha).value, sha) == n
  {
    Sizes(m);
    ShrBound(n, Pow(256, 4 * m), m);
    ValueOfFixedBytes(Shr(n, m), 4 * m);
    SplitBits(n, m);
  }

  /** Conversely, an accepted sentence is the mnemonic of what it decodes to. */
  lemma SentenceOfDecoded(ws: seq<string>, list: seq<string>, index: map<string, nat>, sha: Hash)
    requires |list| == 2048 && Indexes(index, list) && IsSha256(sha)
    requires Decode(ws, index, sha).Ok?
    ensures var entropy := Decode(ws, index, sha).value;
            && ValidEntropySize(|entropy|)
            && SentenceWords(entropy, list, sha) == ws
            && Checksummed(entropy, sha) == SentenceNumber(ws, index)
  {
    hide Value, Pow, FixedBytes, WordDigits, Checksummed, FirstUnknown, DecodeNumber;
    var ds := IndicesOf(ws, index);
    ValueBound(ds, 2048);
    ChecksummedOfDecoded(SentenceNumber(ws, index), |ws| / 3, sha);
    WordsAtIndicesOf(list, index, ws);
    WordDigitsOfValue(ds);
  }

  lemma QuotientFits(n: nat, count: nat)
    requires ValidWordCount(count) && n < Pow(2048, count)
    ensures Pad(MinBytes(Shr(n, count / 3)), count / 3 * 4) == FixedBytes(Shr(n, count / 3), count / 3 * 4)
  {
    var m := count / 3;
    Sizes(m);
    ShrBound(n, Pow(256, 4 * m), m);
    PadMinBytes(Shr(n, m), 4 * m);
  }

  /** The second decoder recovers the entropy too, or its bytes followed by the checksum. */
  lemma SecondDecodeSentence(entropy: Bytes, list: seq<string>, index: map<string, nat>, sha: Hash)
    requires ValidEntropySize(|entropy|) && GoodList(list) && Indexes(index, list) && IsSha256(sha)
    ensures var ws := Fields(Join(SentenceWords(entropy, list, sha)));
            && SecondDecode(ws, true, index, sha) == Ok(entropy)
            && SecondDecode(ws, false, index, sha) == Ok(FixedBytes(Checksummed(entropy, sha), |entropy| + 1))
            && BytesValue(FixedBytes(Checksummed(entropy, sha), |entropy| + 1)) == Checksummed(entropy, sha)
  {
    hide WordDigits, Value, Shl, Pow, Fields, Join, WordLength, FixedBytes, Checksummed, FirstUnknown, SentenceNumber,
         DecodeNumber;
    DecodeSentence(entropy, list, index, sha);
    FieldsOfJoin(SentenceWords(entropy, list, sha));
    SentenceNumberOf(entropy, list, index, sha);
    FitsOneMoreByte(entropy, sha);
    ValueOfFixedBytes(Checksummed(entropy, sha), |entropy| + 1);
  }

  /** `NewMnemonic` rebuilds every accepted sentence, up to the white space between its words. */
  lemma RebuildsAcceptedMnemonic(mnemonic: string, list: seq<string>, index: map<string, nat>, sha: Hash)
    requires GoodList(list) && Indexes(index, list) && IsSha256(sha)
    requires Decode(Fields(mnemonic), index, sha).Ok?
    ensures var entropy := Decode(Fields(mnemonic), index, sha).value;
            ValidEntropySize(|entropy|) && Join(SentenceWords(entropy, list, sha)) == Join(Fields(mnemonic))
  {
    SentenceOfDecoded(Fields(mnemonic), list, index, sha);
  }

  /** Two different entropies never share a mnemonic. */
  lemma MnemonicsAreInjective(a: Bytes, b: Bytes, list: seq<string>, index: map<string, nat>, sha: Hash)
    requires ValidEntropySize(|a|) && ValidEntropySize(|b|)
    requires GoodList(list) && Indexes(index, list) && IsSha256(sha)
    ensures Join(SentenceWords(a, list, sha)) == Join(SentenceWords(b, list, sha)) ==> a == b
  {
    DecodeSentence(a, list, index, sha);
    DecodeSentence(b, list, index, sha);
  }

  // ---- the package: its variables and its operations ------------------------------------------------

  class Codec {
    var wordList: seq<string>
    var wordMap: map<string, nat>

    ghost predicate Valid()
      reads this
    {
      GoodList(wordList) && Indexes(wordMap, wordList)
    }

    /** `SetWordList`. A repeated word keeps its last position. */
    method SetWordList(list: seq<string>)
      modifies this
      ensures wordList == list && Indexes(wordMap, list)
      ensures forall w, j :: w in wordMap && wordMap[w] < j < |list| ==> list[j] != w
      ensures GoodList(list) ==> Valid()
    {
      wordList := list;
      wordMap := map[];
      for i := 0 to |list|
        invariant wordList == list
        invariant forall j :: 0 <= j < i ==> list[j] in wordMap
        invariant forall w :: w in wordMap ==> wordMap[w] < i && list[wordMap[w]] == w
        invariant forall w, j :: w in wordMap && wordMap[w] < j < i ==> list[j] != w
      {
        wordMap := wordMap[list[i] := i];
      }
    }

    /** `addChecksum`: shift in the leading checksum bits one at a time. */
    method AddChecksum(data: Bytes, sha: Hash) returns (r: Bytes)
      requires |data| / 4 <= 8 && |sha(data)| > 0
      ensures r == MinBytes(Checksummed(data, sha))
    {
      hide Shl, TopBits, BitAnd, BitOr, Pow, Value, MinBytes;
      var firstChecksumByte := sha(data)[0];
      var checksumBitLength := |data| / 4;
      var dataBigInt := BytesValue(data);
      var i := 0;
      NoBits(dataBigInt, firstChecksumByte);
      while i < checksumBitLength
        invariant 0 <= i <= checksumBitLength
        invariant dataBigInt == Shl(BytesValue(data), i) + TopBits(firstChecksumByte, i)
      {
        NextBit(BytesValue(data), firstChecksumByte, i);
        OrOne(dataBigInt);
        dataBigInt := dataBigInt * 2;
        if BitAnd(firstChecksumByte, Pow(2, 7 - i)) > 0 {
          dataBigInt := BitOr(dataBigInt, 1);
        }
        i := i + 1;
      }
      r := MinBytes(dataBigInt);
    }

    /** The loop of `NewMnemonic`: mask off eleven bits per word, last word first. */
    method WordsOf(number: nat, sentenceLength: nat) returns (words: array<string>)
      requires |wordList| == 2048
      ensures fresh(words) && words[..] == WordsAt(wordList, WordDigits(number, sentenceLength))
    {
      hide Pow, BitAnd, Value, WordDigits;
      var entropyInt := number;
      ghost var digits := WordDigits(number, sentenceLength);
      words := new string[sentenceLength](_ => "");
      var i := sentenceLength;
      while i > 0
        invariant 0 <= i <= sentenceLength
        invariant digits[..i] == WordDigits(entropyInt, i)
        invariant forall j :: i <= j < sentenceLength ==> words[j] == wordList[digits[j]]
      {
        i := i - 1;
        ElevenBits(entropyInt);
        LastDigit(digits[..i + 1], entropyInt);
        var word := BitAnd(entropyInt, 2047);
        entropyInt := entropyInt / 2048;
        TwoBytes(word);
        var wordBytes := Pad(MinBytes(word), 2);
        words[i] := wordList[BytesValue(wordBytes)];
        assert digits[..i + 1][..i] == digits[..i];
      }
    }

    /** `NewMnemonic`. */
    method NewMnemonic(entropy: Bytes, sha: Hash) returns (r: Result<string, BipError>)
      requires Valid() && IsSha256(sha)
      ensures r == if ValidEntropySize(|entropy|) then Ok(Join(SentenceWords(entropy, wordList, sha)))
                   else Err(EntropyLengthInvalid)
    {
      hide Shr, Low, Pow, MinBytes, Pad, Value, Checksummed, WordDigits, Join;
      var entropyBitLength := |entropy| * 8;
      var checksumBitLength := entropyBitLength / 32;
      var sentenceLength := (entropyBitLength + checksumBitLength) / 11;
      if entropyBitLength % 32 != 0 || entropyBitLength < 128 || entropyBitLength > 256 {
        return Err(EntropyLengthInvalid);
      }
      var withChecksum := AddChecksum(entropy, sha);
      MinBytesValue(Checksummed(entropy, sha));
      var words := WordsOf(BytesValue(withChecksum), sentenceLength);
      return Ok(Join(words[..]));
    }

    /** The loop of `EntropyFromMnemonic`: the word positions as one number, or the first unknown word. */
    method NumberOf(words: seq<string>) returns (b: nat, known: nat)
      requires Valid()
      ensures known == FirstUnknown(words, wordMap)
      ensures known == |words| ==> b == SentenceNumber(words, wordMap) && b < Pow(2048, |words|)
    {
      b := 0;
      known := 0;
      while known < |words|
        invariant 0 <= known <= |words|
        invariant forall j :: 0 <= j < known ==> words[j] in wordMap
        invariant b == SentenceNumber(words[..known], wordMap)
      {
        if words[known] !in wordMap {
          UnknownAt(words, known, wordMap);
          return;
        }
        var index := wordMap[words[known]];
        TwoBytes(index);
        var wordBytes := FixedBytes(index, 2);
        OrElevenBits(b, index);
        b := BitOr(b * 2048, BytesValue(wordBytes));
        SentenceNumberSnoc(words, known, wordMap);
        known := known + 1;
      }
      UnknownAt(words, known, wordMap);
      assert words[..known] == words;
      ValueBound(IndicesOf(words, wordMap), 2048);
    }

    /** The rest of `EntropyFromMnemonic`: split the number and compare the checksum. */
    method SplitNumber(number: nat, count: nat, sha: Hash) returns (r: Result<Bytes, BipError>)
      requires ValidWordCount(count) && number < Pow(2048, count) && IsSha256(sha)
      ensures r == DecodeNumber(number, count / 3, sha)
    {
      hide Shr, Low, Pow, BitAnd, MinBytes, Pad, Value, FixedBytes;
      var checksumMask := WordLengthChecksumMask(count);
      var checksum := BitAnd(number, checksumMask);
      SplitChecksum(number, count);
      var b := number / (checksumMask + 1);
      QuotientFits(number, count);
      var entropy := Pad(MinBytes(b), count / 3 * 4);
      var entropyChecksum: nat := sha(entropy)[0];
      ShiftChecksum(sha(entropy)[0], count);
      if count != 24 {
        entropyChecksum := entropyChecksum / WordLengthChecksumShift(count);
      }
      if checksum != entropyChecksum {
        return Err(ChecksumIncorrect);
      }
      return Ok(entropy);
    }

    /** `EntropyFromMnemonic`. */
    method EntropyFromMnemonic(mnemonic: string, sha: Hash) returns (r: Result<Bytes, BipError>)
      requires Valid() && IsSha256(sha)
      ensures r == Decode(Fields(mnemonic), wordMap, sha)
    {
      var words := Fields(mnemonic);
      if |words| % 3 != 0 || |words| < 12 || |words| > 24 {
        return Err(InvalidMnemonic);
      }
      var b, known := NumberOf(words);
      if known < |words| {
        return Err(WordNotFound(words[known]));
      }
      r := SplitNumber(b, |words|, sha);
    }

    /** The loop of `MnemonicToByteArray`; a word without an entry reads as position 0. */
    method SecondNumberOf(words: seq<string>) returns (checksummedEntropy: nat)
      requires forall j :: 0 <= j < |words| ==> words[j] in wordMap
      ensures checksummedEntropy == SentenceNumber(words, wordMap)
    {
      checksummedEntropy := 0;
      var i := 0;
      while i < |words|
        invariant 0 <= i <= |words|
        invariant checksummedEntropy == SentenceNumber(words[..i], wordMap)
      {
        var index := if words[i] in wordMap then wordMap[words[i]] else 0;
        checksummedEntropy := checksummedEntropy * 2048;
        checksummedEntropy := checksummedEntropy + index;
        SentenceNumberSnoc(words, i, wordMap);
        i := i + 1;
      }
      assert words[..i] == words;
    }

    /** The rest of `MnemonicToByteArray`, on the number of an accepted sentence. */
    method Recheck(checksummedEntropy: nat, count: nat, raw: bool, ghost entropy: Bytes, sha: Hash)
      returns (r: Result<Bytes, BipError>)
      requires ValidWordCount(count) && |entropy| == count / 3 * 4 && IsSha256(sha)
      requires checksummedEntropy == Checksummed(entropy, sha)
      ensures r == Ok(if raw then entropy else FixedBytes(checksummedEntropy, |entropy| + 1))
    {
      hide Shr, Low, Pow, MinBytes, Pad, Value, FixedBytes, Checksummed;
      var entropyBitSize := count * 11;
      var checksumBitSize := entropyBitSize % 32;
      var fullByteSize := (entropyBitSize - checksumBitSize) / 8 + 1;
      var checksumByteSize := fullByteSize - fullByteSize % 4;
      SecondDecoderSizes(count);
      ReadBack(entropy, sha);
      var checksumModulo := Pow(2, checksumBitSize);
      var rawEntropy := checksummedEntropy / checksumModulo;
      var rawEntropyBytes := Pad(MinBytes(rawEntropy), checksumByteSize);
      var checksummedEntropyBytes := Pad(MinBytes(checksummedEntropy), fullByteSize);
      var again := AddChecksum(rawEntropyBytes, sha);
      var newChecksummedEntropyBytes := Pad(again, fullByteSize);
      if checksummedEntropyBytes != newChecksummedEntropyBytes {
        return Err(ChecksumIncorrect);
      }
      if raw {
        return Ok(rawEntropyBytes);
      }
      return Ok(checksummedEntropyBytes);
    }

    /**
     * `MnemonicToByteArray`. Its own checksum comparison is in `Recheck` and never fails: the second
     * decoder returns the entropy (raw) or the checksummed bytes of every sentence the first accepts.
     */
    method MnemonicToByteArray(mnemonic: string, raw: bool, sha: Hash) returns (r: Result<Bytes, BipError>)
      requires Valid() && IsSha256(sha)
      ensures r == SecondDecode(Fields(mnemonic), raw, wordMap, sha)
    {
      var words := Fields(mnemonic);
      var valid := EntropyFromMnemonic(mnemonic, sha);
      if valid.Err? {
        return Err(InvalidMnemonic);
      }
      SentenceOfDecoded(words, wordList, wordMap, sha);
      var checksummedEntropy := SecondNumberOf(words);
      r := Recheck(checksummedEntropy, |words|, raw, valid.value, sha);
    }
  }

  // ---- the size tables of the source -----------------------------------------------------------------

  function WordLengthChecksumMask(count: nat): nat
    requires ValidWordCount(count)
  {
    if count == 12 then 15 else if count == 15 then 31 else if count == 18 then 63 else if count == 21 then 127 else 255
  }

  function WordLengthChecksumShift(count: nat): nat
    requires ValidWordCount(count) && count != 24
  {
    if count == 12 then 16 else if count == 15 then 8 else if count == 18 then 4 else 2
  }

  /** The literal tables are the powers of two that the checksum length asks for. */
  lemma MaskTables(m: nat)
    requires 4 <= m <= 8
    ensures Pow(2, m) == WordLengthChecksumMask(3 * m) + 1
    ensures m < 8 ==> Pow(2, 8 - m) == WordLengthChecksumShift(3 * m)
    ensures m == 8 ==> Pow(2, 8 - m) == 1
  {
    assert Pow(2, 1) == 2 && Pow(2, 2) == 4 && Pow(2, 3) == 8 && Pow(2, 4) == 16;
    assert Pow(2, 5) == 32 && Pow(2, 6) == 64 && Pow(2, 7) == 128 && Pow(2, 8) == 256;
  }

  /** The second decoder computes the sizes from the bit length; they are the same sizes. */
  lemma SecondDecoderSizes(count: nat)
    requires ValidWordCount(count)
    ensures var m := count / 3;
            && count * 11 % 32 == m
            && (count * 11 - m) / 8 + 1 == 4 * m + 1
            && (4 * m + 1) - (4 * m + 1) % 4 == 4 * m
  {
    var m := count / 3;
    assert m == 4 || m == 5 || m == 6 || m == 7 || m == 8;
  }

  lemma SplitChecksum(b: nat, count: nat)
    requires ValidWordCount(count)
    ensures BitAnd(b, WordLengthChecksumMask(count)) == Low(b, count / 3)
    ensures b / (WordLengthChecksumMask(count) + 1) == Shr(b, count / 3)
  {
    MaskTables(count / 3);
    AndMask(b, count / 3);
    ShrIsDiv(b, count / 3);
  }

  lemma ShiftChecksum(b: Byte, count: nat)
    requires ValidWordCount(count)
    ensures TopBits(b, count / 3) == if count == 24 then b else b / WordLengthChecksumShift(count)
  {
    MaskTables(count / 3);
    ShrIsDiv(b, 8 - count / 3);
  }

  lemma TwoToEleven()
    ensures Pow(2, 11) == 2048
  {
    assert Pow(2, 3) == 8 && Pow(2, 8) == 256;
    PowAdd(2, 3, 8);
  }

  lemma ElevenBits(n: nat)
    ensures BitAnd(n, 2047) == n % 2048
  {
    hide Pow, BitAnd, Low, Shl, Shr;
    TwoToEleven();
    AndMask(n, 11);
    SplitBits(n, 11);
    ShlIsMul(Shr(n, 11), 11);
  }

  lemma OrElevenBits(a: nat, b: nat)
    requires b < 2048
    ensures BitOr(a * 2048, b) == a * 2048 + b
  {
    hide Pow, BitOr, Shl;
    TwoToEleven();
    OrDisjoint(a, 11, b);
    ShlIsMul(a, 11);
  }

  lemma TwoBytes(n: nat)
    requires n < 2048
    ensures BytesValue(FixedBytes(n, 2)) == n
    ensures BytesValue(Pad(MinBytes(n), 2)) == n
  {
    assert Pow(256, 2) == 65536;
    ValueOfFixedBytes(n, 2);
    BytesValuePad(n, 2);
  }

  /** What the second decoder reads out of the number that carries `entropy` and its checksum. */
  lemma ReadBack(entropy: Bytes, sha: Hash)
    requires ValidEntropySize(|entropy|) && |sha(entropy)| > 0
    ensures var n, m := Checksummed(entropy, sha), |entropy| / 4;
            && Pow(2, m) > 0
            && Pad(MinBytes(n / Pow(2, m)), 4 * m) == entropy
            && Pad(MinBytes(n), 4 * m + 1) == FixedBytes(n, 4 * m + 1)
  {
    var n, m := Checksummed(entropy, sha), |entropy| / 4;
    ChecksummedFits(entropy, sha);
    ShrIsDiv(n, m);
    PadBytesValue(entropy);
    FitsOneMoreByte(entropy, sha);
    PadMinBytes(n, 4 * m + 1);
  }

  lemma FitsOneMoreByte(entropy: Bytes, sha: Hash)
    requires ValidEntropySize(|entropy|) && |sha(entropy)| > 0
    ensures Checksummed(entropy, sha) < Pow(256, |entropy| + 1)
  {
    var m := |entropy| / 4;
    var p := Pow(256, |entropy|);
    MaskTables(m);
    ValueBound(entropy, 256);
    ShlBounds(BytesValue(entropy), 0, m);
    ShlBounds(BytesValue(entropy) + 1, p, m);
    ShlIsMul(p, m);
    PowPositive(256, |entropy|);
    MulMono(Pow(2, m), 256, p);
  }
}
