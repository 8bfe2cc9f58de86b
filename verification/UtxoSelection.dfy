/** Coin selection (signing/utxolist.go). Values are decimal texts; totals are 64-bit and wrap around. */
module UtxoSelection {
  import opened Common
  import opened Decimals

  datatype Utxo = Utxo(hash: string, script: string, index: string, value: string)

  predicate Readable(u: Utxo) { ParseUint(u.value).Parsed? }

  function ValueOf(u: Utxo): nat
    requires Readable(u)
  {
    ParseUint(u.value).value
  }

  /**
   * What the comparison of the sort sees: `ParseUint` gives 0 with a syntax error and the maximum with a range error.
   */
  function SortKey(u: Utxo): nat {
    match ParseUint(u.value)
    case Parsed(v) => v
    case SyntaxError => 0
    case RangeError => TWO_TO_64 - 1
  }

  predicate Ascending(s: seq<Utxo>) { forall i, j :: 0 <= i < j < |s| ==> SortKey(s[i]) <= SortKey(s[j]) }

  /** `sort.Slice` is not stable: all that is known is that the coins are the same and the keys ascend. */
  predicate IsSorting(s: seq<Utxo>, sorted: seq<Utxo>) { multiset(sorted) == multiset(s) && Ascending(sorted) }

  function Insert(u: Utxo, s: seq<Utxo>): seq<Utxo> {
    if s == [] || SortKey(u) < SortKey(s[0]) then [u] + s else [s[0]] + Insert(u, s[1..])
  }

  lemma {:induction false} InsertKeepsCoins(u: Utxo, s: seq<Utxo>)
    ensures multiset(Insert(u, s)) == multiset(s) + multiset{u}
    decreases |s|
  {
    hide SortKey;
    if s != [] && SortKey(u) >= SortKey(s[0]) {
      InsertKeepsCoins(u, s[1..]);
      assert s == [s[0]] + s[1..];
    }
  }

  lemma {:induction false} InsertKeepsOrder(u: Utxo, s: seq<Utxo>)
    requires Ascending(s)
    ensures Ascending(Insert(u, s))
    decreases |s|
  {
    hide SortKey;
    if s != [] && SortKey(u) >= SortKey(s[0]) {
      var rest := Insert(u, s[1..]);
      InsertKeepsOrder(u, s[1..]);
      InsertKeepsCoins(u, s[1..]);
      forall j | 0 <= j < |rest| ensures SortKey(s[0]) <= SortKey(rest[j]) {
        assert rest[j] in multiset(rest);
        assert rest[j] == u || rest[j] in s[1..];
      }
    }
  }

  method SortByValue(s: seq<Utxo>) returns (sorted: seq<Utxo>)
    ensures IsSorting(s, sorted)
  {
    hide SortKey;
    sorted := [];
    for i := 0 to |s|
      invariant IsSorting(s[..i], sorted)
    {
      InsertKeepsOrder(s[i], sorted);
      InsertKeepsCoins(s[i], sorted);
      sorted := Insert(s[i], sorted);
      assert s[..i + 1] == s[..i] + [s[i]];
    }
    assert s[..|s|] == s;
  }

  function Coins(s: seq<Utxo>): (r: seq<Utxo>)
    ensures |r| <= |s| && forall i :: 0 <= i < |r| ==> Readable(r[i])
  {
    if s == [] then []
    else if Readable(s[|s| - 1]) then Coins(s[..|s| - 1]) + [s[|s| - 1]]
    else Coins(s[..|s| - 1])
  }

  predicate AllReadable(s: seq<Utxo>) { forall i :: 0 <= i < |s| ==> Readable(s[i]) }

  function Sum(s: seq<Utxo>): nat
    requires AllReadable(s)
  {
    if s == [] then 0 else Sum(s[..|s| - 1]) + ValueOf(s[|s| - 1])
  }

  /** What the 64-bit accumulator holds after these coins. */
  function Wrapped(s: seq<Utxo>): nat
    requires AllReadable(s)
  {
    Sum(s) % TWO_TO_64
  }

  /** The loop takes `n` coins: the accumulator reaches the target with the `n`th and not before. */
  predicate StopsAt(coins: seq<Utxo>, n: nat, target: nat)
    requires AllReadable(coins)
  {
    n <= |coins| && Wrapped(coins[..n]) >= target && forall k :: 0 <= k < n ==> Wrapped(coins[..k]) < target
  }

  predicate NeverStops(coins: seq<Utxo>, target: nat)
    requires AllReadable(coins)
  {
    forall k :: 0 <= k <= |coins| ==> Wrapped(coins[..k]) < target
  }

  datatype SelectError = NilList | BadTarget | Insufficient

  lemma SumSnoc(s: seq<Utxo>, u: Utxo)
    requires AllReadable(s) && Readable(u)
    ensures AllReadable(s + [u]) && Sum(s + [u]) == Sum(s) + ValueOf(u)
  {
    hide ParseUint;
    assert (s + [u])[..|s|] == s;
  }

  lemma AddWrapped(a: nat, b: nat)
    ensures (a + b) % TWO_TO_64 == (a % TWO_TO_64 + b) % TWO_TO_64
  {
  }

  lemma WrappedSnoc(s: seq<Utxo>, u: Utxo)
    requires AllReadable(s) && Readable(u)
    ensures AllReadable(s + [u]) && Wrapped(s + [u]) == (Wrapped(s) + ValueOf(u)) % TWO_TO_64
  {
    hide Sum, Readable, ValueOf, ParseUint, AllReadable;
    SumSnoc(s, u);
    AddWrapped(Sum(s), ValueOf(u));
  }

  lemma {:induction false} CoinsPrefix(s: seq<Utxo>, i: nat)
    requires i <= |s|
    ensures Coins(s[..i]) <= Coins(s)
    decreases |s| - i
  {
    hide Readable;
    if i < |s| {
      CoinsPrefix(s, i + 1);
      assert s[..i + 1][..i] == s[..i];
    } else {
      assert s[..i] == s;
    }
  }

  /** The readable coins are kept as often as they occur, the others are dropped. */
  lemma {:induction false} CoinsExactly(s: seq<Utxo>, u: Utxo)
    ensures multiset(Coins(s))[u] == if ParseUint(u.value).Parsed? then multiset(s)[u] else 0
  {
    hide ParseUint;
    if s != [] {
      CoinsExactly(s[..|s| - 1], u);
      assert s == s[..|s| - 1] + [s[|s| - 1]];
    }
  }

  /** The elements that are not nil. */
  function Present(s: seq<Option<Utxo>>): seq<Utxo> {
    if s == [] then []
    else Present(s[..|s| - 1]) + if s[|s| - 1].Some? then [s[|s| - 1].value] else []
  }

  function Pointers(s: seq<Utxo>): (r: seq<Option<Utxo>>)
    ensures |r| == |s|
  {
    seq(|s|, i requires 0 <= i < |s| => Some(s[i]))
  }

  lemma {:induction false} PresentPointers(s: seq<Utxo>)
    ensures Present(Pointers(s)) == s
  {
    if s != [] {
      PresentPointers(s[..|s| - 1]);
      assert Pointers(s)[..|s| - 1] == Pointers(s[..|s| - 1]);
    }
  }

  predicate NoneNil(s: seq<Option<Utxo>>) { forall i :: 0 <= i < |s| ==> s[i].Some? }

  lemma {:induction false} PointersOfPresent(s: seq<Option<Utxo>>)
    requires NoneNil(s)
    ensures Pointers(Present(s)) == s
  {
    if s != [] {
      PointersOfPresent(s[..|s| - 1]);
      assert s == s[..|s| - 1] + [s[|s| - 1]];
    }
  }

  method Dereference(s: seq<Option<Utxo>>) returns (r: seq<Utxo>)
    requires NoneNil(s)
    ensures r == Present(s)
  {
    r := [];
    for i := 0 to |s|
      invariant r == Present(s[..i])
    {
      r := r + [s[i].value];
      assert s[..i + 1][..i] == s[..i];
    }
    assert s[..|s|] == s;
  }

  /** The wrapped sum of the elements that are not nil, or "0" if one of them is unreadable. */
  function CalcText(list: Option<seq<Option<Utxo>>>): string {
    if list.Some? && AllReadable(Present(list.value)) then Format(Wrapped(Present(list.value))) else "0"
  }

  class UtxoList {
    /** `None` is the nil slice, and an element that is `None` a nil pointer. */
    var list: Option<seq<Option<Utxo>>>

    constructor ()
      ensures list == Some([])
    {
      list := Some([]);
    }

    /**
     * A failed selection leaves the list sorted; one that takes no coin leaves it nil. The comparison of the
     * sort dereferences every element.
     */
    method SelectUtxo(targetValue: string) returns (err: Option<SelectError>)
      requires list.Some? ==> NoneNil(list.value)
      modifies this
      ensures old(list).None? <==> err == Some(NilList)
      ensures old(list).Some? ==> (ParseUint(targetValue).Parsed? <==> err != Some(BadTarget))
      ensures err == Some(NilList) || err == Some(BadTarget) ==> list == old(list)
      ensures err == Some(Insufficient) ==>
                exists sorted :: IsSorting(Present(old(list).value), sorted) && list == Some(Pointers(sorted))
                                 && NeverStops(Coins(sorted), ParseUint(targetValue).value)
      ensures err.None? ==>
                exists sorted, n: nat ::
                  && IsSorting(Present(old(list).value), sorted)
                     && StopsAt(Coins(sorted), n, ParseUint(targetValue).value)
                  && list == if n == 0 then None else Some(Pointers(Coins(sorted)[..n]))
    {
      if list.None? {
        return Some(NilList);
      }
      var parsed := ParseUint(targetValue);
      if !parsed.Parsed? {
        return Some(BadTarget);
      }
      hide IsSorting, ParseUint, Present, Pointers;
      var target := parsed.value;
      var coins := Dereference(list.value);
      var sorted := SortByValue(coins);
      list := Some(Pointers(sorted));
      var selected, totalValue := Take(sorted, target);
      if totalValue < target {
        return Some(Insufficient);
      }
      assert Coins(sorted)[..|selected|] == selected;
      list := if |selected| == 0 then None else Some(Pointers(selected));
      return None;
    }

    /** Nil elements are skipped, and an unreadable coin makes the whole sum "0". */
    method CalcValue() returns (text: string)
      ensures text == CalcText(list)
    {
      hide ParseUint, Readable, Format, Present, Wrapped, AllReadable, ValueOf;
      if list.None? {
        return "0";
      }
      var elements := list.value;
      var totalValue := 0;
      NothingYet(elements);
      for i := 0 to |elements|
        invariant AllReadable(Present(elements[..i])) && totalValue == Wrapped(Present(elements[..i]))
      {
        PresentSnoc(elements, i);
        if elements[i].None? {
          continue;
        }
        var utxo := elements[i].value;
        if !Readable(utxo) {
          UnreadableStays(elements, i + 1);
          return "0";
        }
        WrappedSnoc(Present(elements[..i]), utxo);
        totalValue := (totalValue + ValueOf(utxo)) % TWO_TO_64;
      }
      return Format(totalValue);
    }
  }

  lemma NothingYet(s: seq<Option<Utxo>>)
    ensures AllReadable(Present(s[..0])) && Wrapped(Present(s[..0])) == 0 && s[..|s|] == s
  {
    assert s[..0] == [];
  }

  lemma PresentSnoc(s: seq<Option<Utxo>>, i: nat)
    requires i < |s|
    ensures Present(s[..i + 1]) == if s[i].Some? then Present(s[..i]) + [s[i].value] else Present(s[..i])
  {
    assert s[..i + 1][..i] == s[..i];
  }

  lemma {:induction false} UnreadableStays(s: seq<Option<Utxo>>, i: nat)
    requires 0 < i <= |s| && s[i - 1].Some? && !Readable(s[i - 1].value)
    ensures !AllReadable(Present(s))
    decreases |s|
  {
    hide Readable;
    var front := Present(s[..|s| - 1]);
    if i == |s| {
      assert Present(s)[|front|] == s[i - 1].value;
    } else {
      UnreadableStays(s[..|s| - 1], i);
      var k :| 0 <= k < |front| && !Readable(front[k]);
      assert Present(s)[k] == front[k];
    }
  }

  /** A nil list and one with an unreadable coin print "0"; any other prints its sum modulo 2^64. */
  lemma CalcSays(list: Option<seq<Option<Utxo>>>)
    ensures list.None? ==> CalcText(list) == "0"
    ensures list.Some? && (exists i :: 0 <= i < |list.value| && Spoils(list.value[i])) ==> CalcText(list) == "0"
    ensures list.Some? && (forall i :: 0 <= i < |list.value| ==> !Spoils(list.value[i])) ==>
              && AllReadable(Present(list.value))
              && ParseUint(CalcText(list)) == Parsed(Sum(Present(list.value)) % 0x1_0000_0000_0000_0000)
  {
    hide ParseUint, Format, Sum, Present, Readable;
    if list.Some? {
      SpoiledExactly(list.value);
      if AllReadable(Present(list.value)) {
        ParseInvertsFormat(Wrapped(Present(list.value)));
      }
    }
  }

  /** A coin that is there but has no readable value. */
  predicate Spoils(u: Option<Utxo>) { u.Some? && !ParseUint(u.value.value).Parsed? }

  lemma {:induction false} SpoiledExactly(s: seq<Option<Utxo>>)
    ensures AllReadable(Present(s)) <==> forall i :: 0 <= i < |s| ==> !Spoils(s[i])
  {
    hide ParseUint;
    if s != [] {
      var front, last := s[..|s| - 1], s[|s| - 1];
      SpoiledExactly(front);
      assert s == front + [last];
      if last.Some? {
        ReadableSnoc(Present(front), last.value);
      } else {
        assert Present(s) == Present(front);
      }
    }
  }

  lemma ReadableSnoc(s: seq<Utxo>, u: Utxo)
    ensures AllReadable(s + [u]) <==> AllReadable(s) && Readable(u)
  {
    hide Readable;
    assert forall i :: 0 <= i < |s| ==> (s + [u])[i] == s[i];
    assert (s + [u])[|s|] == u;
  }

  predicate StillBelow(selected: seq<Utxo>, target: nat)
    requires AllReadable(selected)
  {
    forall k :: 0 <= k < |selected| ==> Wrapped(selected[..k]) < target
  }

  lemma NothingTaken(sorted: seq<Utxo>, target: nat)
    ensures Coins(sorted[..0]) == [] && Wrapped([]) == 0 && StillBelow([], target) && sorted[..|sorted|] == sorted
  {
  }

  lemma TakeOne(selected: seq<Utxo>, u: Utxo, target: nat)
    requires AllReadable(selected) && Readable(u) && StillBelow(selected, target) && Wrapped(selected) < target
    ensures AllReadable(selected + [u]) && StillBelow(selected + [u], target)
  {
    hide Readable, Wrapped;
    var more := selected + [u];
    forall k | 0 <= k < |more| ensures Wrapped(more[..k]) < target {
      assert more[..k] == selected[..k];
      assert selected[..|selected|] == selected;
    }
  }

  lemma StopsHere(coins: seq<Utxo>, selected: seq<Utxo>, target: nat)
    requires AllReadable(coins) && selected <= coins && AllReadable(selected) && StillBelow(selected, target)
    ensures Wrapped(selected) >= target ==> StopsAt(coins, |selected|, target)
    ensures Wrapped(selected) < target && selected == coins ==> NeverStops(coins, target)
  {
    hide Readable, Wrapped;
    assert coins[..|selected|] == selected;
    forall k | 0 <= k < |selected| ensures Wrapped(coins[..k]) < target { assert coins[..k] == selected[..k]; }
  }

  lemma CoinsNext(s: seq<Utxo>, i: nat)
    requires i < |s|
    ensures Coins(s[..i + 1]) == if Readable(s[i]) then Coins(s[..i]) + [s[i]] else Coins(s[..i])
  {
    hide Readable;
    assert s[..i + 1][..i] == s[..i];
  }

  /** The loop of `SelectUtxo` over the sorted list. */
  method Take(sorted: seq<Utxo>, target: nat) returns (selected: seq<Utxo>, totalValue: nat)
    ensures selected <= Coins(sorted) && totalValue == Wrapped(selected)
    ensures totalValue >= target ==> StopsAt(Coins(sorted), |selected|, target)
    ensures totalValue < target ==> NeverStops(Coins(sorted), target)
  {
    hide ParseUint, ValueOf, Coins, StillBelow, Readable, Wrapped, StopsAt, NeverStops;
    selected := [];
    totalValue := 0;
    NothingTaken(sorted, target);
    for i := 0 to |sorted|
      invariant selected == Coins(sorted[..i]) && totalValue == Wrapped(selected)
      invariant StillBelow(selected, target)
    {
      if totalValue >= target {
        CoinsPrefix(sorted, i);
        StopsHere(Coins(sorted), selected, target);
        return;
      }
      CoinsNext(sorted, i);
      if !Readable(sorted[i]) {
        continue;
      }
      TakeOne(selected, sorted[i], target);
      WrappedSnoc(selected, sorted[i]);
      selected := selected + [sorted[i]];
      totalValue := (totalValue + ValueOf(sorted[i])) % TWO_TO_64;
    }
    StopsHere(Coins(sorted), selected, target);
  }

  // ---- which coins these are ------------------------------------------------------------------------------

  /** The readable coins keep the order of the sort, which is the order of their values. */
  predicate ValuesAscend(coins: seq<Utxo>)
    requires AllReadable(coins)
  {
    forall i, j :: 0 <= i < j < |coins| ==> ValueOf(coins[i]) <= ValueOf(coins[j])
  }

  lemma {:induction false} CoinsAscend(s: seq<Utxo>)
    requires Ascending(s)
    ensures ValuesAscend(Coins(s)) && forall i :: 0 <= i < |Coins(s)| ==> Coins(s)[i] in s
  {
    if s != [] {
      var front, last := s[..|s| - 1], s[|s| - 1];
      CoinsAscend(front);
      assert s == front + [last];
      forall i | 0 <= i < |Coins(front)| ensures SortKey(Coins(front)[i]) <= SortKey(last) {
        var k :| 0 <= k < |front| && front[k] == Coins(front)[i];
        assert s[k] == front[k];
      }
      assert forall i :: 0 <= i < |Coins(front)| ==> SortKey(Coins(front)[i]) == ValueOf(Coins(front)[i]);
    }
  }

  /** `n` coins reach the target and fewer do not, counted without wrap-around. */
  predicate IsShortest(coins: seq<Utxo>, n: nat, target: nat)
    requires AllReadable(coins)
  {
    n <= |coins| && Sum(coins[..n]) >= target && (n > 0 ==> Sum(coins[..n - 1]) < target)
  }

  lemma {:induction false} SumMonotone(coins: seq<Utxo>, m: nat, n: nat)
    requires AllReadable(coins) && m <= n <= |coins|
    ensures Sum(coins[..m]) <= Sum(coins[..n])
    decreases n - m
  {
    hide Readable;
    if m < n {
      SumMonotone(coins, m, n - 1);
      assert coins[..n][..n - 1] == coins[..n - 1];
    }
  }

  lemma {:induction false} ShortestExists(coins: seq<Utxo>, m: nat, target: nat)
    requires AllReadable(coins) && m <= |coins| && Sum(coins[..m]) >= target
    ensures exists n: nat :: n <= m && IsShortest(coins, n, target)
    decreases m
  {
    if m > 0 && Sum(coins[..m - 1]) >= target {
      ShortestExists(coins, m - 1, target);
    } else {
      assert IsShortest(coins, m, target);
    }
  }

  lemma WrapsBelow(coins: seq<Utxo>, k: nat, target: nat)
    requires AllReadable(coins) && k <= |coins| && Sum(coins[..k]) < target < TWO_TO_64
    ensures Wrapped(coins[..k]) < target
  {
  }

  /**
   * The selection is the shortest prefix that reaches the target exactly when the sum of that prefix fits 64 bits;
   * when it does not fit, the loop goes on past it, or runs out of coins and reports an insufficient balance.
   */
  lemma ShortestExactlyWithoutWrap(coins: seq<Utxo>, k: nat, target: nat)
    requires AllReadable(coins) && target < TWO_TO_64 && IsShortest(coins, k, target)
    ensures StopsAt(coins, k, target) <==> Sum(coins[..k]) < TWO_TO_64
    ensures Sum(coins[..k]) >= TWO_TO_64 ==>
              NeverStops(coins, target) || exists n: nat :: n > k && StopsAt(coins, n, target)
  {
    forall j | 0 <= j < k ensures Wrapped(coins[..j]) < target {
      SumMonotone(coins, j, k - 1);
      WrapsBelow(coins, j, target);
    }
    if Sum(coins[..k]) >= TWO_TO_64 {
      assert k > 0 && coins[..k][..k - 1] == coins[..k - 1] && coins[..k][k - 1] == coins[k - 1];
      ParsedBound(coins[k - 1].value, 0);
      assert ValueOf(coins[k - 1]) < TWO_TO_64;
      assert Wrapped(coins[..k]) == Sum(coins[..k]) - TWO_TO_64 < target;
      StopsOrNever(coins, k, target);
    }
  }

  lemma {:induction false} StopsOrNever(coins: seq<Utxo>, k: nat, target: nat)
    requires AllReadable(coins) && k <= |coins| && forall j :: 0 <= j <= k ==> Wrapped(coins[..j]) < target
    ensures NeverStops(coins, target) || exists n: nat :: n > k && StopsAt(coins, n, target)
    decreases |coins| - k
  {
    hide Wrapped;
    if k < |coins| {
      if Wrapped(coins[..k + 1]) >= target {
        assert StopsAt(coins, k + 1, target);
      } else {
        StopsOrNever(coins, k + 1, target);
      }
    }
  }

  /** No prefix wraps around. */
  ghost predicate Unwrapped(coins: seq<Utxo>)
    requires AllReadable(coins)
  {
    forall n :: 0 <= n <= |coins| ==> Wrapped(coins[..n]) == Sum(coins[..n])
  }

  lemma FittingTotal(coins: seq<Utxo>)
    requires AllReadable(coins) && Sum(coins) < TWO_TO_64
    ensures Unwrapped(coins)
  {
    hide Wrapped, Sum, Readable;
    assert coins[..|coins|] == coins;
    forall n | 0 <= n <= |coins| ensures Wrapped(coins[..n]) == Sum(coins[..n]) {
      SumMonotone(coins, n, |coins|);
      FitsUnwrapped(coins[..n]);
    }
  }

  lemma StopsAtShortest(coins: seq<Utxo>, n: nat, target: nat)
    requires AllReadable(coins) && Unwrapped(coins)
    ensures StopsAt(coins, n, target) <==> IsShortest(coins, n, target)
  {
    hide Wrapped, Sum, Readable;
    if IsShortest(coins, n, target) {
      forall k | 0 <= k < n ensures Wrapped(coins[..k]) < target { SumMonotone(coins, k, n - 1); }
    }
  }

  lemma NeverStopsWhenShort(coins: seq<Utxo>, target: nat)
    requires AllReadable(coins) && Unwrapped(coins)
    ensures NeverStops(coins, target) <==> Sum(coins) < target
  {
    hide Wrapped, Sum, Readable;
    assert coins[..|coins|] == coins;
    forall n | 0 <= n <= |coins| ensures Wrapped(coins[..n]) <= Sum(coins) {
      SumMonotone(coins, n, |coins|);
    }
    assert Wrapped(coins[..|coins|]) == Sum(coins);
  }

  /** When everything fits 64 bits: success exactly if there is enough, and then the shortest prefix. */
  lemma SelectionWhenTotalFits(coins: seq<Utxo>, target: nat)
    requires AllReadable(coins) && Sum(coins) < TWO_TO_64 && target < TWO_TO_64
    ensures NeverStops(coins, target) <==> Sum(coins) < target
    ensures forall n: nat :: StopsAt(coins, n, target) <==> IsShortest(coins, n, target)
  {
    hide Sum, Readable, StopsAt, IsShortest, NeverStops, Unwrapped;
    FittingTotal(coins);
    NeverStopsWhenShort(coins, target);
    forall n: nat ensures StopsAt(coins, n, target) <==> IsShortest(coins, n, target) {
      StopsAtShortest(coins, n, target);
    }
  }

  lemma FitsUnwrapped(s: seq<Utxo>)
    requires AllReadable(s)
    ensures Sum(s) < TWO_TO_64 ==> Wrapped(s) == Sum(s)
  {
  }

  /** What is paid beyond the target is less than the last coin taken. */
  lemma ExcessBelowLastCoin(coins: seq<Utxo>, n: nat, target: nat)
    requires AllReadable(coins) && n > 0 && IsShortest(coins, n, target)
    ensures Sum(coins[..n]) - target < ValueOf(coins[n - 1])
  {
    assert coins[..n][..n - 1] == coins[..n - 1];
  }

  // ---- no covering set without redundancy uses more coins ---------------------------------------------------

  /** A choice of coins, by position. */
  predicate IsChoice(coins: seq<Utxo>, chosen: seq<nat>) {
    && (forall i :: 0 <= i < |chosen| ==> chosen[i] < |coins|)
    && (forall i, j :: 0 <= i < j < |chosen| ==> chosen[i] < chosen[j])
  }

  function SumOf(coins: seq<Utxo>, chosen: seq<nat>): nat
    requires AllReadable(coins) && IsChoice(coins, chosen)
  {
    if chosen == [] then 0 else SumOf(coins, chosen[..|chosen| - 1]) + ValueOf(coins[chosen[|chosen| - 1]])
  }

  function Without(chosen: seq<nat>, i: nat): seq<nat>
    requires i < |chosen|
  {
    chosen[..i] + chosen[i + 1..]
  }

  /** Covers the target, and no coin of it can be left out. */
  ghost predicate Irredundant(coins: seq<Utxo>, chosen: seq<nat>, target: nat)
    requires AllReadable(coins) && IsChoice(coins, chosen)
  {
    SumOf(coins, chosen) >= target &&
    forall i :: 0 <= i < |chosen| ==> IsChoice(coins, Without(chosen, i)) && SumOf(coins, Without(chosen, i)) < target
  }

  lemma {:induction false} PositionsGrow(coins: seq<Utxo>, chosen: seq<nat>, i: nat)
    requires IsChoice(coins, chosen) && i < |chosen|
    ensures chosen[i] >= i
  {
    if i > 0 { PositionsGrow(coins, chosen, i - 1); }
  }

  /** The first coins are the cheapest choice of their number. */
  lemma {:induction false} PrefixIsCheapest(coins: seq<Utxo>, chosen: seq<nat>)
    requires AllReadable(coins) && ValuesAscend(coins) && IsChoice(coins, chosen) && |chosen| <= |coins|
    ensures Sum(coins[..|chosen|]) <= SumOf(coins, chosen)
  {
    hide Readable, ValueOf, ParseUint;
    if chosen != [] {
      var n := |chosen|;
      PrefixIsCheapest(coins, chosen[..n - 1]);
      PositionsGrow(coins, chosen, n - 1);
      assert coins[..n][..n - 1] == coins[..n - 1];
      assert ValueOf(coins[n - 1]) <= ValueOf(coins[chosen[n - 1]]);
    }
  }

  lemma NoIrredundantChoiceIsLarger(coins: seq<Utxo>, n: nat, target: nat, chosen: seq<nat>)
    requires AllReadable(coins) && ValuesAscend(coins) && IsShortest(coins, n, target)
    requires IsChoice(coins, chosen) && Irredundant(coins, chosen, target)
    ensures |chosen| <= n
  {
    hide Readable, Sum, SumOf, ValuesAscend;
    if |chosen| > n {
      var fewer := Without(chosen, 0);
      assert IsChoice(coins, fewer) && SumOf(coins, fewer) < target;
      PositionsGrow(coins, chosen, |chosen| - 1);
      PrefixIsCheapest(coins, fewer);
      SumMonotone(coins, n, |fewer|);
    }
  }

  // ---- selecting and then adding up -------------------------------------------------------------------------

  /** The sum of the readable coins of a list. */
  function Total(s: seq<Utxo>): nat { Sum(Coins(s)) }

  lemma {:induction false} TotalSnoc(s: seq<Utxo>, u: Utxo)
    ensures Total(s + [u]) == Total(s) + if Readable(u) then ValueOf(u) else 0
  {
    assert (s + [u])[..|s|] == s;
    assert (Coins(s) + [u])[..|Coins(s)|] == Coins(s);
  }

  lemma {:induction false} TotalConcat(s: seq<Utxo>, t: seq<Utxo>)
    ensures Total(s + t) == Total(s) + Total(t)
    decreases |t|
  {
    hide Total, Readable;
    if t == [] {
      assert s + t == s;
      TotalOfNothing();
    } else {
      var front, last := t[..|t| - 1], t[|t| - 1];
      TotalConcat(s, front);
      TotalSnoc(s + front, last);
      TotalSnoc(front, last);
      assert t == front + [last] && s + t == s + front + [last];
    }
  }

  lemma TotalOfNothing()
    ensures Total([]) == 0
  {
  }

  lemma TotalWithout(s: seq<Utxo>, i: nat)
    requires i < |s|
    ensures Total(s) == Total(s[..i] + s[i + 1..]) + Total([s[i]])
    ensures multiset(s[..i] + s[i + 1..]) == multiset(s) - multiset{s[i]}
  {
    hide Total;
    assert s == s[..i] + [s[i]] + s[i + 1..];
    TotalConcat(s[..i], [s[i]]);
    TotalConcat(s[..i] + [s[i]], s[i + 1..]);
    TotalConcat(s[..i], s[i + 1..]);
  }

  /** Sorting does not change what the coins are worth. */
  lemma {:induction false} TotalOfSorting(s: seq<Utxo>, t: seq<Utxo>)
    requires multiset(s) == multiset(t)
    ensures Total(s) == Total(t)
    decreases |s|
  {
    hide Total;
    assert |multiset(s)| == |s| && |multiset(t)| == |t|;
    if s != [] {
      assert s[0] in multiset(t);
      var i :| 0 <= i < |t| && t[i] == s[0];
      TotalWithout(s, 0);
      TotalWithout(t, i);
      TotalOfSorting(s[..0] + s[1..], t[..i] + t[i + 1..]);
    } else {
      assert t == [];
    }
  }

  /** No choice of coins that covers the target without redundancy has more than `n` of them. */
  ghost predicate NoneLarger(coins: seq<Utxo>, n: nat, target: nat)
    requires AllReadable(coins)
  {
    forall choice :: IsChoice(coins, choice) && Irredundant(coins, choice, target) ==> |choice| <= n
  }

  lemma ShortestIsSmallest(coins: seq<Utxo>, n: nat, target: nat)
    requires AllReadable(coins) && ValuesAscend(coins) && IsShortest(coins, n, target)
    ensures NoneLarger(coins, n, target)
  {
    hide IsShortest, ValuesAscend, Irredundant, IsChoice, AllReadable;
    forall choice | IsChoice(coins, choice) && Irredundant(coins, choice, target) ensures |choice| <= n {
      NoIrredundantChoiceIsLarger(coins, n, target, choice);
    }
  }

  /** The first `n` coins cover the target, closely, and no irredundant choice is larger. */
  ghost predicate GoodPrefix(coins: seq<Utxo>, n: nat, target: nat)
    requires AllReadable(coins)
  {
    && n <= |coins| && Sum(coins[..n]) >= target
    && (n > 0 ==> Sum(coins[..n]) - target < ValueOf(coins[n - 1]))
    && NoneLarger(coins, n, target)
  }

  lemma ShortestIsGood(coins: seq<Utxo>, n: nat, target: nat)
    requires AllReadable(coins) && ValuesAscend(coins) && IsShortest(coins, n, target)
    ensures GoodPrefix(coins, n, target)
  {
    ShortestIsSmallest(coins, n, target);
    if n > 0 { ExcessBelowLastCoin(coins, n, target); }
    hide NoneLarger, Sum, ValueOf;
  }

  /** What a caller may rely on after a successful selection of coins worth less than 2^64. */
  ghost predicate GoodSelection(coins: seq<Utxo>, chosen: seq<Utxo>, target: nat) {
    exists sorted, n: nat ::
      IsSorting(coins, sorted) && GoodPrefix(Coins(sorted), n, target) && chosen == Coins(sorted)[..n]
  }

  lemma SelectionIsGood(coins: seq<Utxo>, sorted: seq<Utxo>, n: nat, target: nat)
    requires IsSorting(coins, sorted) && StopsAt(Coins(sorted), n, target) && Total(coins) < TWO_TO_64
             && target < TWO_TO_64
    ensures GoodSelection(coins, Coins(sorted)[..n], target) && Wrapped(Coins(sorted)[..n]) == Sum(Coins(sorted)[..n])
    ensures Total(coins) >= target
  {
    var all := Coins(sorted);
    TotalOfSorting(coins, sorted);
    CoinsAscend(sorted);
    assert Sum(all) == Total(coins);
    hide StopsAt, Readable, Wrapped, Coins, Sum, Total, ValuesAscend, GoodPrefix, NeverStops;
    SelectionWhenTotalFits(all, target);
    assert IsShortest(all, n, target);
    ShortestIsGood(all, n, target);
    SumMonotone(all, n, |all|);
    assert all[..|all|] == all;
    FitsUnwrapped(all[..n]);
  }

  /** The list after a good selection, and what `CalcValue` prints for it: the exact sum. */
  ghost predicate SelectedAndSummed(coins: seq<Utxo>, target: nat, list: Option<seq<Option<Utxo>>>, text: string) {
    exists chosen ::
      && GoodSelection(coins, chosen, target) && AllReadable(chosen)
      && list == (if chosen == [] then None else Some(Pointers(chosen)))
      && text == Format(Sum(chosen))
  }

  lemma SelectionIsSummed(coins: seq<Utxo>, sorted: seq<Utxo>, n: nat, target: nat)
    requires IsSorting(coins, sorted) && StopsAt(Coins(sorted), n, target) && Total(coins) < TWO_TO_64
             && target < TWO_TO_64
    ensures var list := if n == 0 then None else Some(Pointers(Coins(sorted)[..n]));
            SelectedAndSummed(coins, target, list, CalcText(list)) && Total(coins) >= target
  {
    hide Wrapped, Readable, GoodSelection, IsSorting, Total, Coins, Present, Pointers, Format, Sum, ParseUint, ValueOf;
    NothingPrints();
    SelectionIsGood(coins, sorted, n, target);
    var chosen := Coins(sorted)[..n];
    PresentPointers(chosen);
    assert n == 0 <==> chosen == [];
  }

  lemma NothingPrints()
    ensures Sum([]) == 0 && Format(0) == "0"
  {
  }

  lemma RefusalIsRight(coins: seq<Utxo>, sorted: seq<Utxo>, target: nat)
    requires IsSorting(coins, sorted) && NeverStops(Coins(sorted), target) && Total(coins) < TWO_TO_64
             && target < TWO_TO_64
    ensures Total(coins) < target
  {
    TotalOfSorting(coins, sorted);
    SelectionWhenTotalFits(Coins(sorted), target);
  }

  /**
   * Selecting and then asking for the value: with coins worth less than 2^64 the selection
   * succeeds exactly if they suffice, is good, and `CalcValue` prints its exact sum.
   */
  method SelectAndCalc(utxos: UtxoList, targetValue: string) returns (err: Option<SelectError>, text: string)
    requires utxos.list.Some? && NoneNil(utxos.list.value) && Total(Present(utxos.list.value)) < TWO_TO_64
    requires ParseUint(targetValue).Parsed?
    modifies utxos
    ensures err.None? <==> Total(Present(old(utxos.list).value)) >= ParseUint(targetValue).value
    ensures err.None? ==>
              SelectedAndSummed(Present(old(utxos.list).value), ParseUint(targetValue).value, utxos.list, text)
  {
    ghost var coins := Present(utxos.list.value);
    ghost var target := ParseUint(targetValue).value;
    ParsedBound(targetValue, 0);
    hide Present, Pointers, ParseUint, StopsAt, NeverStops, IsSorting, Total, CalcText, SelectedAndSummed, Coins,
         Readable;
    err := utxos.SelectUtxo(targetValue);
    text := utxos.CalcValue();
    if err.None? {
      ghost var sorted, n: nat :| IsSorting(coins, sorted) && StopsAt(Coins(sorted), n, target)
                                  && utxos.list == if n == 0 then None else Some(Pointers(Coins(sorted)[..n]));
      SelectionIsSummed(coins, sorted, n, target);
    } else {
      assert err.value.NilList? || err.value.BadTarget? || err.value.Insufficient?;
      ghost var sorted :| IsSorting(coins, sorted) && NeverStops(Coins(sorted), target);
      RefusalIsRight(coins, sorted, target);
    }
  }

  /** Two coins that together exceed 64 bits: enough for the target, yet refused. */
  lemma RefusedThoughCovered()
    ensures var coins := [Utxo("", "", "", Format(2)), Utxo("", "", "", Format(TWO_TO_64 - 1))];
            AllReadable(coins) && ValuesAscend(coins) && Sum(coins) > TWO_TO_64 - 1 && NeverStops(coins, TWO_TO_64 - 1)
  {
    ParseInvertsFormat(2);
    ParseInvertsFormat(TWO_TO_64 - 1);
    var a, b := Utxo("", "", "", Format(2)), Utxo("", "", "", Format(TWO_TO_64 - 1));
    hide Format, ParseUint;
    assert Sum([]) == 0 && Sum([a]) == 2 by { assert [a][..0] == []; }
    assert Sum([a, b]) == TWO_TO_64 + 1 by { assert [a, b][..1] == [a]; }
    assert [a, b][..0] == [] && [a, b][..1] == [a] && [a, b][..2] == [a, b];
  }
}
