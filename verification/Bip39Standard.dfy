/** The sentence of an entropy as BIP 39 describes it, in numbers, and the sizes it allows. */
module Bip39Standard {
  import opened Common
  import opened Numbers
  import opened Sentences
  import opened Bip39

  /** The entropy bits followed by the leading bits of the first hash byte: one for every four bytes of entropy. */
  function StandardNumber(entropy: Bytes, sha: Hash): nat
    requires |entropy| / 4 <= 8 && |sha(entropy)| > 0
  {
    var bits := |entropy| / 4;
    PowPositive(2, 8 - bits);
    BytesValue(entropy) * Pow(2, bits) + sha(entropy)[0] / Pow(2, 8 - bits)
  }

  /** The digit at place `k` from the right in base 2048. */
  function DigitAt(n: nat, k: nat): (d: nat)
    ensures d < 2048
  {
    PowPositive(2048, k);
    n / Pow(2048, k) % 2048
  }

  /** Three words for every four bytes; word `i` is the one at the `i`-th digit of the number. */
  predicate IsStandardSentence(ws: seq<string>, entropy: Bytes, list: seq<string>, sha: Hash)
    requires |entropy| / 4 <= 8 && |sha(entropy)| > 0 && |list| == 2048
  {
    && |ws| == |entropy| / 4 * 3
    && forall i :: 0 <= i < |ws| ==> ws[i] == list[DigitAt(StandardNumber(entropy, sha), |ws| - 1 - i)]
  }

  lemma DigitAbove(n: nat, k: nat)
    ensures DigitAt(n / 2048, k) == DigitAt(n, k + 1)
  {
    PowPositive(2048, k);
    DivideTwice(n, 2048, Pow(2048, k));
  }

  lemma {:induction false} WordDigitsAt(n: nat, width: nat, i: nat)
    requires i < width
    ensures WordDigits(n, width)[i] == DigitAt(n, width - 1 - i)
  {
    if i == width - 1 {
      assert n / 1 == n;
    } else {
      WordDigitsAt(n / 2048, width - 1, i);
      DigitAbove(n, width - 2 - i);
    }
  }

  lemma ChecksummedIsStandard(entropy: Bytes, sha: Hash)
    requires |entropy| / 4 <= 8 && |sha(entropy)| > 0
    ensures Checksummed(entropy, sha) == StandardNumber(entropy, sha)
  {
    var bits := |entropy| / 4;
    ShlIsMul(BytesValue(entropy), bits);
    ShrIsDiv(sha(entropy)[0], 8 - bits);
    hide Pow, Shl, Shr, Value;
  }

  /** The words of a mnemonic are those of the standard. */
  lemma SentenceIsStandard(entropy: Bytes, list: seq<string>, sha: Hash)
    requires ValidEntropySize(|entropy|) && |list| == 2048 && |sha(entropy)| > 0
    ensures IsStandardSentence(SentenceWords(entropy, list, sha), entropy, list, sha)
  {
    ChecksummedIsStandard(entropy, sha);
    var ws := SentenceWords(entropy, list, sha);
    hide WordDigits, StandardNumber, Checksummed, DigitAt;
    forall i | 0 <= i < |ws|
      ensures ws[i] == list[DigitAt(StandardNumber(entropy, sha), |ws| - 1 - i)]
    {
      WordDigitsAt(StandardNumber(entropy, sha), |ws|, i);
    }
  }

  lemma BitsBelow(b: Byte, bits: nat)
    requires bits <= 8
    ensures Pow(2, 8 - bits) > 0 && b / Pow(2, 8 - bits) < Pow(2, bits)
  {
    TopBitsBound(b, bits);
    ShrIsDiv(b, 8 - bits);
  }

  /** Of the number of a sentence the low bits are the checksum and the rest is the entropy. */
  lemma StandardNumberSplits(entropy: Bytes, sha: Hash)
    requires |entropy| / 4 <= 8 && |sha(entropy)| > 0
    ensures var bits := |entropy| / 4;
            && Pow(2, bits) > 0 && Pow(2, 8 - bits) > 0
            && StandardNumber(entropy, sha) / Pow(2, bits) == BytesValue(entropy)
            && StandardNumber(entropy, sha) % Pow(2, bits) == sha(entropy)[0] / Pow(2, 8 - bits)
  {
    var bits := |entropy| / 4;
    PowPositive(2, bits);
    BitsBelow(sha(entropy)[0], bits);
    hide Pow, Value;
    DivModUnique(BytesValue(entropy), sha(entropy)[0] / Pow(2, 8 - bits), Pow(2, bits));
  }

  /** 128 to 256 bits in steps of 32, and 12 to 24 words in steps of 3. */
  lemma LegalSizes(size: nat, count: nat)
    ensures ValidEntropySize(size) <==> size in {16, 20, 24, 28, 32}
    ensures ValidWordCount(count) <==> count in {12, 15, 18, 21, 24}
    ensures ValidEntropySize(size) ==> ValidWordCount(size / 4 * 3)
  {
  }

  lemma StandardIsUnique(ws: seq<string>, other: seq<string>, entropy: Bytes, list: seq<string>, sha: Hash)
    requires |entropy| / 4 <= 8 && |sha(entropy)| > 0 && |list| == 2048
    requires IsStandardSentence(ws, entropy, list, sha) && IsStandardSentence(other, entropy, list, sha)
    ensures ws == other
  {
    hide StandardNumber, DigitAt;
    assert |ws| == |other|;
  }

  /** The decoder accepts exactly the standard sentences, and returns the entropy they stand for. */
  lemma DecodesStandardSentences(ws: seq<string>, entropy: Bytes, list: seq<string>, index: map<string, nat>, sha: Hash)
    requires GoodList(list) && Indexes(index, list) && IsSha256(sha)
    ensures Decode(ws, index, sha) == Ok(entropy) <==>
            |entropy| in {16, 20, 24, 28, 32} && IsStandardSentence(ws, entropy, list, sha)
  {
    hide Decode, SentenceWords, IsStandardSentence, Indexes, Fields, Join;
    LegalSizes(|entropy|, |ws|);
    if Decode(ws, index, sha) == Ok(entropy) {
      SentenceOfDecoded(ws, list, index, sha);
      SentenceIsStandard(entropy, list, sha);
    }
    if ValidEntropySize(|entropy|) {
      var standard := SentenceWords(entropy, list, sha);
      SentenceIsStandard(entropy, list, sha);
      if IsStandardSentence(ws, entropy, list, sha) {
        StandardIsUnique(ws, standard, entropy, list, sha);
        WordsOfList(entropy, list, sha);
        FieldsOfJoin(ws);
        DecodeSentence(entropy, list, index, sha);
      }
    }
  }

  lemma WordsOfList(entropy: Bytes, list: seq<string>, sha: Hash)
    requires ValidEntropySize(|entropy|) && GoodList(list) && |sha(entropy)| > 0
    ensures forall i :: 0 <= i < |SentenceWords(entropy, list, sha)| ==> IsWord(SentenceWords(entropy, list, sha)[i])
  {
    hide WordDigits, Checksummed, IsWord;
  }

  /** What is refused, in this order: a wrong number of words, the first unknown word, a wrong checksum. */
  lemma DecodingErrors(ws: seq<string>, k: nat, list: seq<string>, index: map<string, nat>, sha: Hash)
    requires GoodList(list) && Indexes(index, list) && IsSha256(sha)
    ensures var r := Decode(ws, index, sha);
            && (|ws| !in {12, 15, 18, 21, 24} <==> r == Err(InvalidMnemonic))
            && (|ws| in {12, 15, 18, 21, 24} && k < |ws| && ws[k] !in list && (forall i :: 0 <= i < k ==> ws[i] in list)
                ==> r == Err(WordNotFound(ws[k])))
            && (|ws| in {12, 15, 18, 21, 24} && (forall i :: 0 <= i < |ws| ==> ws[i] in list)
                ==> r.Ok? || r == Err(ChecksumIncorrect))
  {
    hide DecodeNumber, SentenceNumber, GoodList;
    LegalSizes(16, |ws|);
    assert forall w :: w in index <==> w in list;
    if k < |ws| && ws[k] !in list && forall i :: 0 <= i < k ==> ws[i] in list {
      UnknownAt(ws, k, index);
    }
    DecodeNumberErrors(ws, index, sha);
  }

  lemma DecodeNumberErrors(ws: seq<string>, index: map<string, nat>, sha: Hash)
    requires IsSha256(sha)
    ensures forall n: nat, m: nat :: m <= 8 ==>
              DecodeNumber(n, m, sha).Ok? || DecodeNumber(n, m, sha) == Err(ChecksumIncorrect)
  {
    hide Checksum, FixedBytes, Shr, Low;
  }
}
