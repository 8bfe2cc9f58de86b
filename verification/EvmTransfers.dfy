/**
 * Transfers and balance changes of one EVM transaction (rpc/evm/handler.go): token logs, the value of
 * the transaction itself and the value moved by traced internal calls. Maps are visited in any order.
 */
module EvmTransfers {
  import opened Common
  import opened Hex
  import opened Sequences

  const NATIVE := "0xeeeeeeeeeeeeeeeeeeeeeeeeeeeeeeeeeeeeeeee"
  const ERC20_TRANSFER_EVENT := "0xddf252ad1be2c89b69c2b068fc378daa952ba7f163c4a11628f55a4df523b3ef"

  datatype Transaction = Transaction(from: string, to: string, value: string)

  datatype Log = Log(address: string, topics: seq<string>, data: string)

  datatype Action = Action(callType: string, from: string, to: string, value: string)

  /** A traced frame; the trace address is a slice that may be nil, which is not the same as empty. */
  datatype Frame = Frame(action: Option<Action>, error: string, traceAddress: Option<seq<int>>)

  datatype Transfer = Transfer(sender: string, recipient: string, amount: int, contract: string)

  datatype BalanceChange = BalanceChange(address: string, contract: string, change: int)

  // ---- hexadecimal amounts --------------------------------------------------------------------------------

  function ParseHexDigits(s: string, acc: nat): Option<nat>
    decreases |s|
  {
    if s == "" then Some(acc)
    else if !IsHexDigit(s[0]) then None
    else ParseHexDigits(s[1..], acc * 16 + HexValue(s[0]))
  }

  /** `big.Int.SetString` in base 16: an optional sign, then at least one digit. */
  function ParseHex(s: string): Option<int> {
    if s == "" then None
    else if s[0] == '-' || s[0] == '+' then
      if s[1..] == "" then None
      else match ParseHexDigits(s[1..], 0)
        case None => None
        case Some(n) => Some(if s[0] == '-' then 0 - n else n as int)
    else match ParseHexDigits(s, 0)
      case None => None
      case Some(n) => Some(n)
  }

  function TrimPrefix(s: string): string { if |s| >= 2 && s[..2] == "0x" then s[2..] else s }

  function Amount(s: string): Option<int> { ParseHex(TrimPrefix(s)) }

  /** The texts that the code recognises without parsing are no amounts, or zero. */
  lemma QuickChecks()
    ensures Amount("") == None && Amount("0x") == None && Amount("0x0") == Some(0)
  {
    var s := TrimPrefix("0x0");
    assert s == "0";
    assert s[1..] == "";
    assert ParseHexDigits("0", 0) == ParseHexDigits("", 0);
  }

  /** The digits of a number in base 16. */
  function PrintHex(n: nat): (s: string)
    ensures s != ""
  {
    if n < 16 then [HexDigit(n)] else PrintHex(n / 16) + [HexDigit(n % 16)]
  }

  lemma {:induction false} ParseHexSnoc(s: string, n: nat, d: nat)
    requires d < 16 && ParseHexDigits(s, n).Some?
    ensures ParseHexDigits(s + [HexDigit(d)], n) == Some(ParseHexDigits(s, n).value * 16 + d)
    decreases |s|
  {
    hide HexValue, HexDigit, IsHexDigit;
    DigitIsRead(d);
    if s == "" {
      assert (s + [HexDigit(d)])[1..] == "";
    } else {
      assert (s + [HexDigit(d)])[1..] == s[1..] + [HexDigit(d)];
      ParseHexSnoc(s[1..], n * 16 + HexValue(s[0]), d);
    }
  }

  lemma {:induction false} ParseInvertsPrint(n: nat)
    ensures ParseHexDigits(PrintHex(n), 0) == Some(n) && PrintHex(n)[0] !in {'-', '+'}
    ensures |PrintHex(n)| >= 2 ==> PrintHex(n)[1] != 'x'
  {
    hide HexValue, HexDigit, IsHexDigit;
    DigitIsRead(n % 16);
    if n < 16 {
      assert n % 16 == n;
      assert [HexDigit(n)][1..] == "";
    } else {
      ParseInvertsPrint(n / 16);
      ParseHexSnoc(PrintHex(n / 16), 0, n % 16);
    }
  }

  /** A number printed in base 16, with or without its prefix and sign, is read back. */
  lemma AmountReadsHex(n: nat)
    ensures Amount("0x" + PrintHex(n)) == Some(n) && Amount(PrintHex(n)) == Some(n)
    ensures Amount("0x-" + PrintHex(n)) == Some(0 - n)
  {
    hide PrintHex, ParseHexDigits;
    ParseInvertsPrint(n);
    var s := PrintHex(n);
    assert ("0x" + s)[2..] == s && ("0x" + s)[..2] == "0x";
    assert ("0x-" + s)[2..] == "-" + s && ("0x-" + s)[..2] == "0x";
    assert ("-" + s)[1..] == s;
    if |s| >= 2 {
      assert s[..2][1] == s[1];
    }
  }

  // ---- nested maps of sums --------------------------------------------------------------------------------

  type Nested = map<string, map<string, int>>

  function At(m: Nested, a: string, b: string): int {
    if a in m && b in m[a] then m[a][b] else 0
  }

  function AddAt(m: Nested, a: string, b: string, x: int): Nested {
    var inner := if a in m then m[a] else map[];
    m[a := inner[b := At(m, a, b) + x]]
  }

  lemma AtAddAt(m: Nested, a: string, b: string, x: int, c: string, d: string)
    ensures At(AddAt(m, a, b, x), c, d) == At(m, c, d) + if c == a && d == b then x else 0
  {
  }

  datatype Entry = Entry(outer: string, inner: string, value: int)

  predicate IsEntry(m: Nested, e: Entry) { e.outer in m && e.inner in m[e.outer] && m[e.outer][e.inner] == e.value }

  /** `order` is one way to range over the two levels of the map. */
  ghost predicate RangesOver(m: Nested, order: seq<Entry>) {
    NoDuplicates(order) && forall e :: e in order <==> IsEntry(m, e)
  }

  /** Ranging over a nested map; the keys come in whatever order. */
  method RangeOver(m: Nested) returns (order: seq<Entry>)
    ensures RangesOver(m, order)
  {
    order := [];
    var left := m.Keys;
    while left != {}
      invariant left <= m.Keys && NoDuplicates(order)
      invariant forall e :: e in order <==> IsEntry(m, e) && e.outer !in left
      decreases |left|
    {
      var outer :| outer in left;
      var inner := RangeOverInner(outer, m[outer]);
      AppendDistinct(order, inner);
      order := order + inner;
      left := left - {outer};
    }
  }

  method RangeOverInner(outer: string, m: map<string, int>) returns (order: seq<Entry>)
    ensures NoDuplicates(order)
    ensures forall e :: e in order <==> e.outer == outer && e.inner in m && m[e.inner] == e.value
  {
    order := [];
    var left := m.Keys;
    while left != {}
      invariant left <= m.Keys && NoDuplicates(order)
      invariant forall e ::
                  e in order <==> e.outer == outer && e.inner in m && m[e.inner] == e.value && e.inner !in left
      decreases |left|
    {
      var inner :| inner in left;
      order := order + [Entry(outer, inner, m[inner])];
      left := left - {inner};
    }
  }

  // ---- what a list of transfers means ---------------------------------------------------------------------

  function Delta(t: Transfer, address: string, contract: string): int {
    (if t.contract == contract && t.recipient == address then t.amount else 0)
    - (if t.contract == contract && t.sender == address then t.amount else 0)
  }

  /** Transfers in minus transfers out. */
  function Net(ts: seq<Transfer>, address: string, contract: string): int {
    if ts == [] then 0 else Net(ts[..|ts| - 1], address, contract) + Delta(ts[|ts| - 1], address, contract)
  }

  lemma NetSnoc(ts: seq<Transfer>, t: Transfer, address: string, contract: string)
    ensures Net(ts + [t], address, contract) == Net(ts, address, contract) + Delta(t, address, contract)
  {
    assert (ts + [t])[..|ts|] == ts;
  }

  /** One nonzero change for every address and contract whose transfers do not cancel out, and no other. */
  ghost predicate IsBalanceChanges(ts: seq<Transfer>, changes: seq<BalanceChange>) {
    && NoDuplicates(changes)
    && forall b :: b in changes <==> b.change != 0 && b.change == Net(ts, b.address, b.contract)
  }

  class BalanceMap {
    var balances: Nested

    constructor ()
      ensures balances == map[]
    {
      balances := map[];
    }

    ghost predicate Holds(ts: seq<Transfer>)
      reads this
    {
      forall a, c :: At(balances, a, c) == Net(ts, a, c)
    }

    /** `updateBalanceMap`. */
    method Update(address: string, contract: string, change: int)
      modifies this
      ensures balances == AddAt(old(balances), address, contract, change)
    {
      ghost var inner := if address in balances then balances[address] else map[];
      if address !in balances {
        balances := balances[address := map[]];
      }
      if contract !in balances[address] {
        balances := balances[address := balances[address][contract := 0]];
      }
      balances := balances[address := balances[address][contract := balances[address][contract] + change]];
      assert balances[address] == inner[contract := At(old(balances), address, contract) + change];
    }

    /** The two updates that go with every transfer. */
    method Record(ghost ts: seq<Transfer>, t: Transfer)
      requires Holds(ts)
      modifies this
      ensures Holds(ts + [t])
    {
      hide Net, At, AddAt;
      Update(t.sender, t.contract, -t.amount);
      ghost var middle := balances;
      Update(t.recipient, t.contract, t.amount);
      forall a, c ensures At(balances, a, c) == Net(ts + [t], a, c) {
        NetSnoc(ts, t, a, c);
        AtAddAt(old(balances), t.sender, t.contract, -t.amount, a, c);
        AtAddAt(middle, t.recipient, t.contract, t.amount, a, c);
      }
    }

    method Changes(ghost ts: seq<Transfer>) returns (changes: seq<BalanceChange>)
      requires Holds(ts)
      ensures IsBalanceChanges(ts, changes)
    {
      var order := RangeOver(balances);
      changes := [];
      for k := 0 to |order|
        invariant NoDuplicates(changes)
        invariant forall b :: b in changes <==> b.change != 0 && Entry(b.address, b.contract, b.change) in order[..k]
      {
        assert order[..k + 1] == order[..k] + [order[k]];
        var e := order[k];
        if e.value != 0 {
          changes := changes + [BalanceChange(e.outer, e.inner, e.value)];
        }
      }
      assert order[..|order|] == order;
      forall b ensures b in changes <==> b.change != 0 && b.change == Net(ts, b.address, b.contract) {
        assert At(balances, b.address, b.contract) == Net(ts, b.address, b.contract);
        assert Entry(b.address, b.contract, b.change) in order <==>
                 IsEntry(balances, Entry(b.address, b.contract, b.change));
      }
    }
  }

  // ---- token transfers ------------------------------------------------------------------------------------

  predicate NonZero(a: Option<int>) { a.Some? && a.value != 0 }

  predicate IsTransferEvent(log: Log) { |log.topics| >= 3 && log.topics[0] == ERC20_TRANSFER_EVENT }

  /** The addresses are cut out of the topics from character 26 on. */
  predicate TopicsAreWords(logs: seq<Log>) {
    forall i :: 0 <= i < |logs| && IsTransferEvent(logs[i]) ==> |logs[i].topics[1]| >= 26 && |logs[i].topics[2]| >= 26
  }

  function TokenTransfers(logs: seq<Log>): seq<Transfer>
    requires TopicsAreWords(logs)
  {
    if logs == [] then []
    else
      var log := logs[|logs| - 1];
      TokenTransfers(logs[..|logs| - 1])
      + if IsTransferEvent(log) && NonZero(Amount(log.data)) then
          [Transfer("0x" + log.topics[1][26..], "0x" + log.topics[2][26..], Amount(log.data).value, log.address)]
        else []
  }

  /** Slicing a topic that is too short panics, which `ok` reports. */
  method ReadLogs(logs: seq<Log>, balances: BalanceMap) returns (ok: bool, ts: seq<Transfer>)
    requires balances.Holds([])
    modifies balances
    ensures ok == TopicsAreWords(logs)
    ensures ok ==> ts == TokenTransfers(logs) && balances.Holds(ts)
    ensures ok ==> forall a, c :: At(balances.balances, a, c) == Received(logs, a, c) - Sent(logs, a, c)
  {
    QuickChecks();
    hide Amount, Net;
    ts := [];
    for i := 0 to |logs|
      invariant TopicsAreWords(logs[..i])
      invariant ts == TokenTransfers(logs[..i]) && balances.Holds(ts)
    {
      var log := logs[i];
      assert logs[..i + 1][..i] == logs[..i];
      if |log.topics| < 3 || log.topics[0] != ERC20_TRANSFER_EVENT {
        continue;
      }
      if |log.topics[1]| < 26 || |log.topics[2]| < 26 {
        return false, [];
      }
      var sender, recipient := "0x" + log.topics[1][26..], "0x" + log.topics[2][26..];
      if log.data == "" || log.data == "0x" {
        continue;
      }
      var amount := Amount(log.data);
      if amount.None? || amount.value == 0 {
        continue;
      }
      var t := Transfer(sender, recipient, amount.value, log.address);
      balances.Record(ts, t);
      ts := ts + [t];
    }
    assert logs[..|logs|] == logs;
    forall a, c ensures At(balances.balances, a, c) == Received(logs, a, c) - Sent(logs, a, c) {
      TokenNet(logs, a, c);
    }
    return true, ts;
  }

  // ---- what the logs alone say ----------------------------------------------------------------------------

  /** The log is a transfer event of `contract` with an amount that parses. */
  predicate MovesTokens(log: Log, contract: string) {
    && |log.topics| >= 3
    && log.topics[0] == "0xddf252ad1be2c89b69c2b068fc378daa952ba7f163c4a11628f55a4df523b3ef"
    && log.address == contract && Amount(log.data).Some?
  }

  /** The sum over the transfer events whose third topic ends in the address. */
  function Received(logs: seq<Log>, address: string, contract: string): int
    requires TopicsAreWords(logs)
  {
    if logs == [] then 0
    else
      var log := logs[|logs| - 1];
      Received(logs[..|logs| - 1], address, contract)
      + if MovesTokens(log, contract) && "0x" + log.topics[2][26..] == address then Amount(log.data).value else 0
  }

  /** The sum over the transfer events whose second topic ends in the address. */
  function Sent(logs: seq<Log>, address: string, contract: string): int
    requires TopicsAreWords(logs)
  {
    if logs == [] then 0
    else
      var log := logs[|logs| - 1];
      Sent(logs[..|logs| - 1], address, contract)
      + if MovesTokens(log, contract) && "0x" + log.topics[1][26..] == address then Amount(log.data).value else 0
  }

  /** For every contract but the native one, exactly what an address received minus what it sent is reported. */
  ghost predicate ReportsTokens(logs: seq<Log>, changes: seq<BalanceChange>)
    requires TopicsAreWords(logs)
  {
    forall b: BalanceChange :: b.contract != NATIVE ==>
      (b in changes <==>
         b.change != 0 && b.change == Received(logs, b.address, b.contract) - Sent(logs, b.address, b.contract))
  }

  /** The transfer that one log stands for. */
  predicate StandsFor(log: Log, t: Transfer) {
    && |log.topics| >= 3 && |log.topics[1]| >= 26 && |log.topics[2]| >= 26
    && log.topics[0] == "0xddf252ad1be2c89b69c2b068fc378daa952ba7f163c4a11628f55a4df523b3ef"
    && t.contract == log.address && Amount(log.data) == Some(t.amount) && t.amount != 0
    && t.sender == "0x" + log.topics[1][26..] && t.recipient == "0x" + log.topics[2][26..]
  }

  /** How many logs stand for the transfer. */
  function Occurrences(logs: seq<Log>, t: Transfer): nat {
    if logs == [] then 0
    else Occurrences(logs[..|logs| - 1], t) + if StandsFor(logs[|logs| - 1], t) then 1 else 0
  }

  /** Every token transfer is listed as often as a log stands for it. */
  ghost predicate ListsTokens(logs: seq<Log>, ts: seq<Transfer>) {
    forall t: Transfer :: t.contract != NATIVE ==> multiset(ts)[t] == Occurrences(logs, t)
  }

  lemma {:induction false} TokenNet(logs: seq<Log>, address: string, contract: string)
    requires TopicsAreWords(logs)
    ensures Net(TokenTransfers(logs), address, contract)
            == Received(logs, address, contract) - Sent(logs, address, contract)
  {
    hide Amount;
    if logs != [] {
      var front, log := logs[..|logs| - 1], logs[|logs| - 1];
      TokenNet(front, address, contract);
      if IsTransferEvent(log) && NonZero(Amount(log.data)) {
        NetSnoc(TokenTransfers(front), TokenTransfers(logs)[|TokenTransfers(front)|], address, contract);
      } else {
        assert TokenTransfers(logs) == TokenTransfers(front);
      }
    }
  }

  lemma {:induction false} TokenOccurrences(logs: seq<Log>, t: Transfer)
    requires TopicsAreWords(logs)
    ensures multiset(TokenTransfers(logs))[t] == Occurrences(logs, t)
  {
    hide Amount;
    if logs != [] {
      TokenOccurrences(logs[..|logs| - 1], t);
    }
  }

  predicate OnlyNative(ts: seq<Transfer>) { forall i :: 0 <= i < |ts| ==> ts[i].contract == NATIVE }

  lemma {:induction false} NativeIsNoToken(tokens: seq<Transfer>, native: seq<Transfer>, address: string,
                                           contract: string)
    requires OnlyNative(native) && contract != NATIVE
    ensures Net(tokens + native, address, contract) == Net(tokens, address, contract)
    decreases |native|
  {
    if native == [] {
      assert tokens + native == tokens;
    } else {
      var front, last := native[..|native| - 1], native[|native| - 1];
      NativeIsNoToken(tokens, front, address, contract);
      assert tokens + native == tokens + front + [last];
      NetSnoc(tokens + front, last, address, contract);
    }
  }

  lemma NativeCountsNoToken(tokens: seq<Transfer>, native: seq<Transfer>, t: Transfer)
    requires OnlyNative(native) && t.contract != NATIVE
    ensures multiset(tokens + native)[t] == multiset(tokens)[t]
  {
    assert t !in native;
    assert multiset(tokens + native)[t] == multiset(tokens)[t] + multiset(native)[t];
  }

  // ---- traced frames --------------------------------------------------------------------------------------

  predicate RootTraced(frames: seq<Frame>) { exists i :: 0 <= i < |frames| && frames[i].traceAddress == Some([]) }

  /** A frame that failed at the given trace address. */
  predicate FailedAt(frames: seq<Frame>, path: seq<int>) {
    exists i :: 0 <= i < |frames| && frames[i].error != "" && frames[i].traceAddress == Some(path)
  }

  /** The frame failed itself, or it lies under a frame that did. */
  ghost predicate InFailedFrame(frames: seq<Frame>, f: Frame) {
    f.error != "" || (f.traceAddress.Some? && exists path :: path <= f.traceAddress.value && FailedAt(frames, path))
  }

  predicate IsValueCall(f: Frame) {
    f.action.Some? && f.action.value.callType == "call" && NonZero(Amount(f.action.value.value))
    && f.action.value.from != "" && f.action.value.to != ""
  }

  ghost predicate Eligible(frames: seq<Frame>, f: Frame) { IsValueCall(f) && !InFailedFrame(frames, f) }

  ghost function Moved(frames: seq<Frame>, f: Frame, from: string, to: string): int {
    if Eligible(frames, f) && f.action.value.from == from && f.action.value.to == to
    then Amount(f.action.value.value).value
    else 0
  }

  /** What the first `n` frames move from one address to another. */
  ghost function Traced(frames: seq<Frame>, n: nat, from: string, to: string): int
    requires n <= |frames|
  {
    if n == 0 then 0 else Traced(frames, n - 1, from, to) + Moved(frames, frames[n - 1], from, to)
  }

  /** The trace address of `g` is that of `f` or of one of its ancestors. */
  predicate AtOrAbove(g: Frame, f: Frame) {
    g.traceAddress.Some? && f.traceAddress.Some? && g.traceAddress.value <= f.traceAddress.value
  }

  /**
   * A frame moves its value exactly if it is a plain call with a nonzero amount between two addresses, and no
   * frame with an error is the frame itself or one of its ancestors.
   */
  lemma EligibleExactly(frames: seq<Frame>, f: Frame)
    ensures Eligible(frames, f) <==>
              && f.action.Some? && f.action.value.callType == "call"
              && f.action.value.from != "" && f.action.value.to != ""
              && Amount(f.action.value.value).Some? && Amount(f.action.value.value).value != 0
              && f.error == ""
              && forall i :: 0 <= i < |frames| && AtOrAbove(frames[i], f) ==> frames[i].error == ""
  {
    hide Amount;
    forall i | 0 <= i < |frames| && AtOrAbove(frames[i], f) && frames[i].error != ""
      ensures FailedAt(frames, frames[i].traceAddress.value)
    {
    }
  }

  method ScanFrames(frames: seq<Frame>) returns (rootTraced: bool, failed: set<seq<int>>)
    ensures rootTraced == RootTraced(frames)
    ensures forall path :: path in failed <==> FailedAt(frames, path)
  {
    rootTraced, failed := false, {};
    for i := 0 to |frames|
      invariant rootTraced == RootTraced(frames[..i])
      invariant forall path :: path in failed <==> FailedAt(frames[..i], path)
    {
      var f := frames[i];
      assert frames[..i + 1] == frames[..i] + [f];
      ScanStep(frames[..i], f);
      if f.traceAddress.None? {
        continue;
      }
      if |f.traceAddress.value| == 0 {
        rootTraced := true;
      }
      if f.error != "" {
        failed := failed + {f.traceAddress.value};
      }
    }
    assert frames[..|frames|] == frames;
  }

  lemma ScanStep(frames: seq<Frame>, f: Frame)
    ensures RootTraced(frames + [f]) <==> RootTraced(frames) || f.traceAddress == Some([])
    ensures forall path ::
              FailedAt(frames + [f], path) <==>
                  FailedAt(frames, path) || (f.error != "" && f.traceAddress == Some(path))
  {
    var all := frames + [f];
    assert all[|frames|] == f && forall i :: 0 <= i < |frames| ==> all[i] == frames[i];
    forall path ensures FailedAt(all, path) <==>
        FailedAt(frames, path) || (f.error != "" && f.traceAddress == Some(path)) {
      if FailedAt(frames, path) {
        var i :| 0 <= i < |frames| && frames[i].error != "" && frames[i].traceAddress == Some(path);
        assert all[i].error != "" && all[i].traceAddress == Some(path);
      }
    }
    if RootTraced(frames) {
      var i :| 0 <= i < |frames| && frames[i].traceAddress == Some([]);
      assert all[i].traceAddress == Some([]);
    }
  }

  /** The closure `inFailedFrame`. */
  method IsInFailedFrame(f: Frame, failed: set<seq<int>>, ghost frames: seq<Frame>) returns (b: bool)
    requires forall path :: path in failed <==> FailedAt(frames, path)
    ensures b == InFailedFrame(frames, f)
  {
    if f.error != "" {
      return true;
    }
    if f.traceAddress.None? {
      return false;
    }
    var address := f.traceAddress.value;
    for i := 0 to |address| + 1
      invariant forall k :: 0 <= k < i ==> address[..k] !in failed
    {
      if address[..i] in failed {
        assert address[..i] <= address;
        return true;
      }
    }
    forall path | path <= address ensures !FailedAt(frames, path) {
      assert path == address[..|path|];
    }
    return false;
  }

  method Aggregate(frames: seq<Frame>, failed: set<seq<int>>) returns (native: Nested)
    requires forall path :: path in failed <==> FailedAt(frames, path)
    ensures forall from, to :: At(native, from, to) == Traced(frames, |frames|, from, to)
  {
    QuickChecks();
    hide Amount, FailedAt, InFailedFrame;
    native := map[];
    for i := 0 to |frames|
      invariant forall from, to :: At(native, from, to) == Traced(frames, i, from, to)
    {
      var f := frames[i];
      ghost var before := native;
      var inFailedFrame := IsInFailedFrame(f, failed, frames);
      if f.action.None? || inFailedFrame {
        continue;
      }
      var action := f.action.value;
      if action.callType != "call" {
        continue;
      }
      if action.value == "" || action.value == "0x" || action.value == "0x0" {
        continue;
      }
      var value := Amount(action.value);
      if value.None? || value.value == 0 {
        continue;
      }
      if action.from == "" || action.to == "" {
        continue;
      }
      native := AddAt(native, action.from, action.to, value.value);
      forall from, to ensures At(native, from, to) == Traced(frames, i + 1, from, to) {
        AtAddAt(before, action.from, action.to, value.value, from, to);
      }
    }
  }

  // ---- native transfers -----------------------------------------------------------------------------------

  /** The value of the transaction itself, unless the trace has a root frame that already carries it. */
  function TopLevel(tx: Transaction, rootTraced: bool): seq<Transfer> {
    var value := Amount(tx.value);
    if !rootTraced && value.Some? && value.value > 0 then [Transfer(tx.from, tx.to, value.value, NATIVE)] else []
  }

  /** One transfer for every pair of addresses with a positive traced sum. */
  ghost predicate IsInternal(frames: seq<Frame>, ts: seq<Transfer>) {
    && NoDuplicates(ts)
    && forall t ::
         t in ts <==>
           t.contract == NATIVE && t.amount > 0 && t.amount == Traced(frames, |frames|, t.sender, t.recipient)
  }

  method EmitInternal(native: Nested, ghost frames: seq<Frame>, ghost before: seq<Transfer>, balances: BalanceMap)
    returns (ts: seq<Transfer>)
    requires forall from, to :: At(native, from, to) == Traced(frames, |frames|, from, to)
    requires balances.Holds(before)
    modifies balances
    ensures IsInternal(frames, ts) && balances.Holds(before + ts)
  {
    hide Net, Traced;
    var order := RangeOver(native);
    ts := [];
    assert before + ts == before;
    for k := 0 to |order|
      invariant NoDuplicates(ts) && balances.Holds(before + ts)
      invariant forall t ::
                  t in ts <==>
                    t.contract == NATIVE && t.amount > 0 && Entry(t.sender, t.recipient, t.amount) in order[..k]
    {
      assert order[..k + 1] == order[..k] + [order[k]];
      var e := order[k];
      if e.value > 0 {
        var t := Transfer(e.outer, e.inner, e.value, NATIVE);
        balances.Record(before + ts, t);
        Associate(before, ts, [t]);
        ts := ts + [t];
      }
    }
    assert order[..|order|] == order;
    assert forall t: Transfer ::
             Entry(t.sender, t.recipient, t.amount) in order <==>
                 IsEntry(native, Entry(t.sender, t.recipient, t.amount));
    PositiveEntries(native, order, ts, frames);
  }

  lemma PositiveEntries(native: Nested, order: seq<Entry>, ts: seq<Transfer>, frames: seq<Frame>)
    requires forall from, to :: At(native, from, to) == Traced(frames, |frames|, from, to)
    requires RangesOver(native, order) && NoDuplicates(ts)
    requires forall t ::
               t in ts <==> t.contract == NATIVE && t.amount > 0 && Entry(t.sender, t.recipient, t.amount) in order
    ensures IsInternal(frames, ts)
  {
    hide Traced;
    forall t ensures t in ts <==>
        t.contract == NATIVE && t.amount > 0 && t.amount == Traced(frames, |frames|, t.sender, t.recipient) {
      assert At(native, t.sender, t.recipient) == Traced(frames, |frames|, t.sender, t.recipient);
      assert Entry(t.sender, t.recipient, t.amount) in order <==>
               IsEntry(native, Entry(t.sender, t.recipient, t.amount));
    }
  }

  // ---- the whole transaction ------------------------------------------------------------------------------

  datatype Report = Report(transfers: seq<Transfer>, changes: seq<BalanceChange>)

  ghost predicate IsTransferList(tx: Transaction, logs: seq<Log>, frames: seq<Frame>, ts: seq<Transfer>)
    requires TopicsAreWords(logs)
  {
    exists internal ::
        IsInternal(frames, internal) && ts == TokenTransfers(logs) + TopLevel(tx, RootTraced(frames)) + internal
  }

  lemma SplitList(tx: Transaction, logs: seq<Log>, frames: seq<Frame>, ts: seq<Transfer>)
    returns (native: seq<Transfer>)
    requires TopicsAreWords(logs) && IsTransferList(tx, logs, frames, ts)
    ensures OnlyNative(native) && ts == TokenTransfers(logs) + native
  {
    hide Amount, Traced, RootTraced;
    var internal :| IsInternal(frames, internal) &&
        ts == TokenTransfers(logs) + TopLevel(tx, RootTraced(frames)) + internal;
    Associate(TokenTransfers(logs), TopLevel(tx, RootTraced(frames)), internal);
    native := TopLevel(tx, RootTraced(frames)) + internal;
    assert forall i :: 0 <= i < |internal| ==> internal[i] in internal;
  }

  /** The token part of every report is what the logs say, transfer by transfer and address by address. */
  lemma TokensAreReported(tx: Transaction, logs: seq<Log>, frames: seq<Frame>, ts: seq<Transfer>,
                          changes: seq<BalanceChange>)
    requires TopicsAreWords(logs) && IsTransferList(tx, logs, frames, ts)
    ensures ListsTokens(logs, ts)
    ensures IsBalanceChanges(ts, changes) ==> ReportsTokens(logs, changes)
  {
    var native := SplitList(tx, logs, frames, ts);
    hide TokenTransfers, Net, Received, Sent, Occurrences, OnlyNative, IsTransferList, TopicsAreWords;
    forall t: Transfer | t.contract != NATIVE ensures multiset(ts)[t] == Occurrences(logs, t) {
      TokenOccurrences(logs, t);
      NativeCountsNoToken(TokenTransfers(logs), native, t);
    }
    forall b: BalanceChange | b.contract != NATIVE
      ensures Net(ts, b.address, b.contract) ==
              Received(logs, b.address, b.contract) - Sent(logs, b.address, b.contract)
    {
      TokenNet(logs, b.address, b.contract);
      NativeIsNoToken(TokenTransfers(logs), native, b.address, b.contract);
    }
  }

  datatype Outcome = Reported(report: Report) | NoTransfersFound | Panicked

  method GetTxTransfers(tx: Transaction, logs: seq<Log>, frames: seq<Frame>) returns (r: Outcome)
    ensures r.Panicked? <==> !TopicsAreWords(logs)
    ensures r.NoTransfersFound? ==> IsTransferList(tx, logs, frames, [])
    ensures r.Reported? ==> r.report.transfers != [] && IsTransferList(tx, logs, frames, r.report.transfers)
    ensures r.Reported? ==> IsBalanceChanges(r.report.transfers, r.report.changes)
    ensures r.NoTransfersFound? ==> ListsTokens(logs, [])
    ensures r.Reported? ==> ListsTokens(logs, r.report.transfers) && ReportsTokens(logs, r.report.changes)
  {
    QuickChecks();
    hide Amount, Traced, IsInternal, ListsTokens, ReportsTokens;
    var balances := new BalanceMap();
    assert balances.Holds([]);
    var ok, transferList := ReadLogs(logs, balances);
    if !ok {
      return Panicked;
    }
    hide TokenTransfers, TopicsAreWords;
    var rootTraced, failed := ScanFrames(frames);
    if !rootTraced && tx.value != "" && tx.value != "0x" && tx.value != "0x0" {
      var value := Amount(tx.value);
      if value.Some? && value.value > 0 {
        var t := Transfer(tx.from, tx.to, value.value, NATIVE);
        balances.Record(transferList, t);
        transferList := transferList + [t];
      }
    }
    assert transferList == TokenTransfers(logs) + TopLevel(tx, rootTraced);
    var internal: seq<Transfer> := [];
    if |frames| > 0 {
      var native := Aggregate(frames, failed);
      internal := EmitInternal(native, frames, transferList, balances);
    } else {
      NothingTraced(frames);
      assert transferList + internal == transferList;
    }
    transferList := transferList + internal;
    assert IsTransferList(tx, logs, frames, transferList);
    if |transferList| == 0 {
      TokensAreReported(tx, logs, frames, [], []);
      return NoTransfersFound;
    }
    var changes := balances.Changes(transferList);
    TokensAreReported(tx, logs, frames, transferList, changes);
    return Reported(Report(transferList, changes));
  }

  lemma NothingTraced(frames: seq<Frame>)
    requires frames == []
    ensures IsInternal(frames, [])
  {
  }

  // ---- conservation ---------------------------------------------------------------------------------------

  /** The sum of the changes of one contract. */
  function Total(changes: seq<BalanceChange>, contract: string): int {
    if changes == [] then 0
    else Total(changes[..|changes| - 1], contract)
         + if changes[|changes| - 1].contract == contract then changes[|changes| - 1].change else 0
  }

  /** The net amounts of a list of addresses. */
  function NetOf(addresses: seq<string>, ts: seq<Transfer>, contract: string): int {
    if addresses == [] then 0
    else NetOf(addresses[..|addresses| - 1], ts, contract) + Net(ts, addresses[|addresses| - 1], contract)
  }

  function DeltaOf(addresses: seq<string>, t: Transfer, contract: string): int {
    if addresses == [] then 0
    else DeltaOf(addresses[..|addresses| - 1], t, contract) + Delta(t, addresses[|addresses| - 1], contract)
  }

  /** Among different addresses a transfer is received at most once and sent at most once. */
  lemma {:induction false} DeltaOfDistinct(addresses: seq<string>, t: Transfer, contract: string)
    requires NoDuplicates(addresses)
    ensures DeltaOf(addresses, t, contract) ==
              (if t.contract == contract && t.recipient in addresses then t.amount else 0)
              - (if t.contract == contract && t.sender in addresses then t.amount else 0)
  {
    if addresses != [] {
      var front, last := addresses[..|addresses| - 1], addresses[|addresses| - 1];
      DeltaOfDistinct(front, t, contract);
      InFront(addresses, t.recipient);
      InFront(addresses, t.sender);
      assert last !in front;
    }
  }

  lemma {:induction false} NetOfSplit(addresses: seq<string>, ts: seq<Transfer>, contract: string)
    requires ts != []
    ensures NetOf(addresses, ts, contract) == NetOf(addresses, ts[..|ts| - 1], contract)
            + DeltaOf(addresses, ts[|ts| - 1], contract)
  {
    if addresses != [] {
      NetOfSplit(addresses[..|addresses| - 1], ts, contract);
    }
  }

  predicate Covers(addresses: seq<string>, ts: seq<Transfer>) {
    forall i :: 0 <= i < |ts| ==> ts[i].sender in addresses && ts[i].recipient in addresses
  }

  lemma {:induction false} NothingIsLost(addresses: seq<string>, ts: seq<Transfer>, contract: string)
    requires NoDuplicates(addresses) && Covers(addresses, ts)
    ensures NetOf(addresses, ts, contract) == 0
    decreases |ts|
  {
    if ts != [] {
      NothingIsLost(addresses, ts[..|ts| - 1], contract);
      NetOfSplit(addresses, ts, contract);
      DeltaOfDistinct(addresses, ts[|ts| - 1], contract);
    } else {
      NetOfNothing(addresses, contract);
    }
  }

  lemma {:induction false} NetOfNothing(addresses: seq<string>, contract: string)
    ensures NetOf(addresses, [], contract) == 0
  {
    if addresses != [] { NetOfNothing(addresses[..|addresses| - 1], contract); }
  }

  function WithAddress(addresses: seq<string>, a: string): seq<string> {
    if a in addresses then addresses else addresses + [a]
  }

  /** The addresses of the list, then everybody else who sent or received. */
  function Everyone(addresses: seq<string>, ts: seq<Transfer>): seq<string> {
    if ts == [] then addresses
    else WithAddress(WithAddress(Everyone(addresses, ts[..|ts| - 1]), ts[|ts| - 1].sender), ts[|ts| - 1].recipient)
  }

  lemma WithAddressIsDistinct(addresses: seq<string>, a: string)
    requires NoDuplicates(addresses)
    ensures NoDuplicates(WithAddress(addresses, a)) && addresses <= WithAddress(addresses, a)
            && a in WithAddress(addresses, a)
  {
  }

  lemma PrefixMembers(a: seq<string>, b: seq<string>)
    requires a <= b
    ensures forall x :: x in a ==> x in b
  {
  }

  lemma {:induction false} EveryoneIsCovered(addresses: seq<string>, ts: seq<Transfer>)
    requires NoDuplicates(addresses)
    ensures NoDuplicates(Everyone(addresses, ts)) && Covers(Everyone(addresses, ts), ts)
            && addresses <= Everyone(addresses, ts)
    decreases |ts|
  {
    hide NoDuplicates, WithAddress;
    if ts != [] {
      var front, last := ts[..|ts| - 1], ts[|ts| - 1];
      EveryoneIsCovered(addresses, front);
      var before := Everyone(addresses, front);
      var more := WithAddress(before, last.sender);
      WithAddressIsDistinct(before, last.sender);
      WithAddressIsDistinct(more, last.recipient);
      PrefixMembers(before, more);
      PrefixMembers(more, WithAddress(more, last.recipient));
      assert forall i :: 0 <= i < |front| ==> front[i] == ts[i];
    }
  }

  /** Addresses without a net amount add nothing. */
  lemma {:induction false} NetOfExtension(addresses: seq<string>, all: seq<string>, ts: seq<Transfer>, contract: string)
    requires addresses <= all && NoDuplicates(all)
    requires forall a :: Net(ts, a, contract) != 0 ==> a in addresses
    ensures NetOf(all, ts, contract) == NetOf(addresses, ts, contract)
    decreases |all|
  {
    if |all| > |addresses| {
      NetOfExtension(addresses, all[..|all| - 1], ts, contract);
      assert all[|all| - 1] !in addresses;
    } else {
      assert all == addresses;
    }
  }

  function AddressesOf(changes: seq<BalanceChange>, contract: string): seq<string> {
    if changes == [] then []
    else AddressesOf(changes[..|changes| - 1], contract)
         + if changes[|changes| - 1].contract == contract then [changes[|changes| - 1].address] else []
  }

  lemma AddressesOfDistinct(changes: seq<BalanceChange>, ts: seq<Transfer>, contract: string)
    requires NoDuplicates(changes) && AreNetChanges(changes, ts)
    ensures NoDuplicates(AddressesOf(changes, contract))
    ensures forall a ::
              a in AddressesOf(changes, contract) <==> BalanceChange(a, contract, Net(ts, a, contract)) in changes
    decreases |changes|
  {
    hide Net;
    if changes != [] {
      var front, last := changes[..|changes| - 1], changes[|changes| - 1];
      AddressesOfDistinct(front, ts, contract);
      var before := AddressesOf(front, contract);
      forall a ensures BalanceChange(a, contract, Net(ts, a, contract)) in changes <==>
                       BalanceChange(a, contract, Net(ts, a, contract)) in front
                         || BalanceChange(a, contract, Net(ts, a, contract)) == last {
        InFront(changes, BalanceChange(a, contract, Net(ts, a, contract)));
      }
      assert last.change == Net(ts, last.address, last.contract) && last !in front;
      if last.contract == contract {
        assert last.address !in before;
        AppendDistinct(before, [last.address]);
      }
    }
  }

  predicate AreNetChanges(changes: seq<BalanceChange>, ts: seq<Transfer>) {
    forall i :: 0 <= i < |changes| ==> changes[i].change == Net(ts, changes[i].address, changes[i].contract)
  }

  lemma {:induction false} TotalIsNetOf(changes: seq<BalanceChange>, ts: seq<Transfer>, contract: string)
    requires AreNetChanges(changes, ts)
    ensures Total(changes, contract) == NetOf(AddressesOf(changes, contract), ts, contract)
  {
    hide Net;
    if changes != [] {
      var front, last := changes[..|changes| - 1], changes[|changes| - 1];
      TotalIsNetOf(front, ts, contract);
      var before := AddressesOf(front, contract);
      assert (before + [last.address])[..|before|] == before;
      assert before + [] == before;
    }
  }

  /** The changes of every contract sum to zero. */
  lemma ChangesSumToZero(ts: seq<Transfer>, changes: seq<BalanceChange>, contract: string)
    requires IsBalanceChanges(ts, changes)
    ensures Total(changes, contract) == 0
  {
    assert AreNetChanges(changes, ts) by {
      assert forall i :: 0 <= i < |changes| ==> changes[i] in changes;
    }
    TotalIsNetOf(changes, ts, contract);
    AddressesOfDistinct(changes, ts, contract);
    hide Net, Everyone, Total, AddressesOf;
    var addresses := AddressesOf(changes, contract);
    forall a | Net(ts, a, contract) != 0 ensures a in addresses {
      assert BalanceChange(a, contract, Net(ts, a, contract)) in changes;
    }
    EveryoneIsCovered(addresses, ts);
    var all := Everyone(addresses, ts);
    NetOfExtension(addresses, all, ts, contract);
    NothingIsLost(all, ts, contract);
  }

  // ---- the order of the maps does not matter --------------------------------------------------------------

  lemma {:induction false} NetConcat(s: seq<Transfer>, t: seq<Transfer>, address: string, contract: string)
    ensures Net(s + t, address, contract) == Net(s, address, contract) + Net(t, address, contract)
    decreases |t|
  {
    if t == [] {
      assert s + t == s;
    } else {
      NetConcat(s, t[..|t| - 1], address, contract);
      assert (s + t)[..|s + t| - 1] == s + t[..|t| - 1];
    }
  }

  function Without(t: seq<Transfer>, i: nat): seq<Transfer>
    requires i < |t|
  {
    t[..i] + t[i + 1..]
  }

  lemma NetWithout(t: seq<Transfer>, i: nat, address: string, contract: string)
    requires i < |t|
    ensures Net(t, address, contract) == Net(Without(t, i), address, contract) + Delta(t[i], address, contract)
    ensures multiset(Without(t, i)) == multiset(t) - multiset{t[i]} && |Without(t, i)| == |t| - 1
  {
    hide Net, Delta;
    assert t == t[..i] + [t[i]] + t[i + 1..];
    NetConcat(t[..i], t[i + 1..], address, contract);
    NetSnoc(t[..i], t[i], address, contract);
    NetConcat(t[..i] + [t[i]], t[i + 1..], address, contract);
  }

  lemma {:induction false} NetOfPermutation(s: seq<Transfer>, t: seq<Transfer>, address: string, contract: string)
    requires multiset(s) == multiset(t)
    ensures Net(s, address, contract) == Net(t, address, contract)
    decreases |s|
  {
    assert |multiset(s)| == |s| && |multiset(t)| == |t|;
    hide Net, Delta, Without;
    if s == [] {
      assert t == [];
    } else {
      assert s[0] in multiset(t);
      var i :| 0 <= i < |t| && t[i] == s[0];
      NetWithout(s, 0, address, contract);
      NetWithout(t, i, address, contract);
      NetOfPermutation(Without(s, 0), Without(t, i), address, contract);
    }
  }

  /** Two runs over the same transaction report the same transfers and the same changes, up to their order. */
  lemma ReportIgnoresMapOrder(tx: Transaction, logs: seq<Log>, frames: seq<Frame>, r: Report, q: Report)
    requires TopicsAreWords(logs)
    requires IsTransferList(tx, logs, frames, r.transfers) && IsBalanceChanges(r.transfers, r.changes)
    requires IsTransferList(tx, logs, frames, q.transfers) && IsBalanceChanges(q.transfers, q.changes)
    ensures multiset(r.transfers) == multiset(q.transfers) && multiset(r.changes) == multiset(q.changes)
  {
    hide TokenTransfers, TopLevel, Traced, RootTraced;
    var fixed := TokenTransfers(logs) + TopLevel(tx, RootTraced(frames));
    var i :| IsInternal(frames, i) && r.transfers == fixed + i;
    var j :| IsInternal(frames, j) && q.transfers == fixed + j;
    SameMembersSameMultiset(i, j);
    forall a, c ensures Net(r.transfers, a, c) == Net(q.transfers, a, c) {
      NetOfPermutation(r.transfers, q.transfers, a, c);
    }
    SameMembersSameMultiset(r.changes, q.changes);
  }

  // ---- the value of the transaction -----------------------------------------------------------------------

  /** What the list moves of the native coin from one address to another. */
  function NativeMoved(ts: seq<Transfer>, from: string, to: string): int {
    if ts == [] then 0
    else
      var t := ts[|ts| - 1];
      NativeMoved(ts[..|ts| - 1], from, to)
      + if t.contract == NATIVE && t.sender == from && t.recipient == to then t.amount else 0
  }

  lemma {:induction false} NativeMovedConcat(s: seq<Transfer>, t: seq<Transfer>, from: string, to: string)
    ensures NativeMoved(s + t, from, to) == NativeMoved(s, from, to) + NativeMoved(t, from, to)
    decreases |t|
  {
    if t == [] {
      assert s + t == s;
    } else {
      NativeMovedConcat(s, t[..|t| - 1], from, to);
      assert (s + t)[..|s + t| - 1] == s + t[..|t| - 1];
    }
  }

  ghost function PositivePart(x: int): int { if x > 0 then x else 0 }

  lemma {:induction false} InternalMovesTraced(all: seq<Transfer>, ts: seq<Transfer>, frames: seq<Frame>, from: string,
                                               to: string)
    requires IsInternal(frames, all) && ts <= all
    ensures var sum := Traced(frames, |frames|, from, to);
            NativeMoved(ts, from, to) == if Transfer(from, to, sum, NATIVE) in ts then sum else 0
    decreases |ts|
  {
    hide Traced;
    if ts != [] {
      var front, last := ts[..|ts| - 1], ts[|ts| - 1];
      var sum := Traced(frames, |frames|, from, to);
      InternalMovesTraced(all, front, frames, from, to);
      InFront(ts, Transfer(from, to, sum, NATIVE));
      assert last in all;
      assert last !in front by { assert NoDuplicates(all); }
    }
  }

  /** The native coin moved between two addresses: the value at the top, if counted there, and the traced sum. */
  lemma NativeTotal(tx: Transaction, frames: seq<Frame>, internal: seq<Transfer>, from: string, to: string)
    requires IsInternal(frames, internal)
    ensures NativeMoved(TopLevel(tx, RootTraced(frames)) + internal, from, to) ==
              NativeMoved(TopLevel(tx, RootTraced(frames)), from, to) + PositivePart(Traced(frames, |frames|, from, to))
  {
    hide Traced, TopLevel, RootTraced;
    NativeMovedConcat(TopLevel(tx, RootTraced(frames)), internal, from, to);
    InternalMovesTraced(internal, internal, frames, from, to);
    var sum := Traced(frames, |frames|, from, to);
    assert Transfer(from, to, sum, NATIVE) in internal <==> sum > 0;
  }

  /** What the first `n` frames without a trace address and without an error move from one address to another. */
  function Unaddressed(frames: seq<Frame>, n: nat, from: string, to: string): int
    requires n <= |frames|
  {
    if n == 0 then 0
    else
      var f := frames[n - 1];
      Unaddressed(frames, n - 1, from, to)
      + if IsValueCall(f) && f.error == "" && f.traceAddress.None?
           && f.action.value.from == from && f.action.value.to == to
        then Amount(f.action.value.value).value else 0
  }

  lemma EligibleUnderFailedRoot(frames: seq<Frame>, f: Frame)
    requires FailedAt(frames, [])
    ensures Eligible(frames, f) <==> IsValueCall(f) && f.error == "" && f.traceAddress.None?
  {
    hide FailedAt;
    assert f.traceAddress.Some? ==> [] <= f.traceAddress.value;
  }

  lemma {:induction false} TracedUnderFailedRoot(frames: seq<Frame>, n: nat, from: string, to: string)
    requires FailedAt(frames, []) && n <= |frames|
    ensures Traced(frames, n, from, to) == Unaddressed(frames, n, from, to)
  {
    hide FailedAt, Eligible, Amount, IsValueCall;
    if n > 0 {
      TracedUnderFailedRoot(frames, n - 1, from, to);
      EligibleUnderFailedRoot(frames, frames[n - 1]);
    }
  }

  /** No pair of addresses has a positive traced sum. */
  ghost predicate NoPositiveSum(frames: seq<Frame>) {
    forall from, to :: Traced(frames, |frames|, from, to) <= 0
  }

  ghost predicate NoUnaddressedSum(frames: seq<Frame>) {
    forall from, to :: Unaddressed(frames, |frames|, from, to) <= 0
  }

  lemma NothingInternalExactly(frames: seq<Frame>)
    ensures IsInternal(frames, []) <==> NoPositiveSum(frames)
  {
    hide Traced;
    if IsInternal(frames, []) {
      forall from, to ensures Traced(frames, |frames|, from, to) <= 0 {
        var t := Transfer(from, to, Traced(frames, |frames|, from, to), NATIVE);
        assert t !in [];
      }
    }
    if NoPositiveSum(frames) {
      forall t: Transfer ensures t.amount > 0 ==> t.amount != Traced(frames, |frames|, t.sender, t.recipient) {
        assert Traced(frames, |frames|, t.sender, t.recipient) <= 0;
      }
      assert IsInternal(frames, []);
    }
  }

  lemma SumsUnderFailedRoot(frames: seq<Frame>)
    requires FailedAt(frames, [])
    ensures NoPositiveSum(frames) <==> NoUnaddressedSum(frames)
  {
    hide Traced, Unaddressed, FailedAt;
    forall from, to ensures Traced(frames, |frames|, from, to) == Unaddressed(frames, |frames|, from, to) {
      TracedUnderFailedRoot(frames, |frames|, from, to);
    }
  }

  /**
   * Under a failed root nothing is counted at the top, and the frames that still count are exactly the value
   * calls without an error and without a trace address; nothing native moves exactly if these move nothing.
   */
  lemma FailedRootMovesExactly(tx: Transaction, frames: seq<Frame>)
    requires FailedAt(frames, [])
    ensures TopLevel(tx, RootTraced(frames)) == []
    ensures forall f :: Eligible(frames, f) <==> IsValueCall(f) && f.error == "" && f.traceAddress.None?
    ensures IsInternal(frames, []) <==> NoUnaddressedSum(frames)
  {
    assert RootTraced(frames);
    hide Eligible, IsInternal, IsValueCall, Amount, FailedAt, RootTraced, NoPositiveSum, NoUnaddressedSum;
    NothingInternalExactly(frames);
    SumsUnderFailedRoot(frames);
    forall f: Frame ensures Eligible(frames, f) <==> IsValueCall(f) && f.error == "" && f.traceAddress.None? {
      EligibleUnderFailedRoot(frames, f);
    }
  }

  /** A failed root and a frame without a trace address beside it: one wei is reported. */
  lemma MovesUnderFailedRoot()
    ensures var tx := Transaction("0xa", "0xb", "0x1");
            var root := Frame(Some(Action("call", "0xa", "0xb", "0x1")), "Reverted", Some([]));
            var other := Frame(Some(Action("call", "0xa", "0xb", "0x1")), "", None);
            FailedAt([root, other], []) && !IsInternal([root, other], []) && Traced([root, other], 2, "0xa", "0xb") == 1
  {
    var root := Frame(Some(Action("call", "0xa", "0xb", "0x1")), "Reverted", Some([]));
    var other := Frame(Some(Action("call", "0xa", "0xb", "0x1")), "", None);
    var frames := [root, other];
    OneWei();
    hide Amount;
    assert frames[0].error != "" && frames[0].traceAddress == Some([]);
    TracedUnderFailedRoot(frames, 2, "0xa", "0xb");
    assert Unaddressed(frames, 1, "0xa", "0xb") == 0 && Unaddressed(frames, 2, "0xa", "0xb") == 1;
    FailedRootMovesExactly(Transaction("0xa", "0xb", "0x1"), frames);
  }

  lemma OneWei()
    ensures Amount("0x1") == Some(1)
  {
    assert TrimPrefix("0x1") == "1";
    assert "1"[1..] == "";
    assert ParseHexDigits("1", 0) == ParseHexDigits("", 1);
  }

  predicate CountedAtTop(tx: Transaction, frames: seq<Frame>) {
    !RootTraced(frames) && Amount(tx.value).Some? && Amount(tx.value).value > 0
  }

  /**
   * Nothing native is reported along the transaction exactly if nothing is counted at the top and no positive sum is
   * traced.
   */
  lemma NothingReportedExactly(tx: Transaction, frames: seq<Frame>, internal: seq<Transfer>)
    requires IsInternal(frames, internal)
    ensures NativeMoved(TopLevel(tx, RootTraced(frames)) + internal, tx.from, tx.to) == 0 <==>
            !CountedAtTop(tx, frames) && Traced(frames, |frames|, tx.from, tx.to) <= 0
  {
    NativeTotal(tx, frames, internal, tx.from, tx.to);
    hide Amount, Traced, IsInternal, RootTraced;
    var top := TopLevel(tx, RootTraced(frames));
    assert |top| == 1 ==> top[..0] == [];
  }

  /** A traced root that is no plain call: the value of the transaction is reported nowhere. */
  lemma ValueNotCounted()
    ensures var tx := Transaction("0xa", "0xb", "0x1");
            var root := Frame(Some(Action("", "0xa", "0xb", "0x1")), "", Some([]));
            IsInternal([root], []) && TopLevel(tx, RootTraced([root])) + [] == []
  {
    var root := Frame(Some(Action("", "0xa", "0xb", "0x1")), "", Some([]));
    assert [root][0].traceAddress == Some([]);
    forall t: Transfer ensures t.amount > 0 ==> t.amount != Traced([root], 1, t.sender, t.recipient) {
      assert Traced([root], 1, t.sender, t.recipient) == Moved([root], root, t.sender, t.recipient) == 0;
    }
  }

  /**
   * Frame `k` is the call of the transaction itself and moves its value; no other frame moves anything along the same
   * pair.
   */
  ghost predicate IsOwnCall(tx: Transaction, frames: seq<Frame>, k: nat) {
    && k < |frames| && Eligible(frames, frames[k])
    && frames[k].action.value.from == tx.from && frames[k].action.value.to == tx.to
    && Amount(frames[k].action.value.value) == Amount(tx.value)
    && forall i :: 0 <= i < |frames| && i != k ==> Moved(frames, frames[i], tx.from, tx.to) == 0
  }

  lemma {:induction false} OwnCallTraced(tx: Transaction, frames: seq<Frame>, k: nat, n: nat)
    requires IsOwnCall(tx, frames, k) && n <= |frames|
    ensures Traced(frames, n, tx.from, tx.to) == if n > k then Amount(tx.value).value else 0
  {
    hide Amount, InFailedFrame;
    if n > 0 {
      OwnCallTraced(tx, frames, k, n - 1);
      assert n - 1 != k ==> Moved(frames, frames[n - 1], tx.from, tx.to) == 0;
      assert n - 1 == k ==> Moved(frames, frames[n - 1], tx.from, tx.to) == Amount(tx.value).value;
    }
  }

  /**
   * The value of a transaction whose own call is traced is counted once exactly when some frame has an empty
   * trace address that is not nil, and twice otherwise.
   */
  lemma ValueCountedOnceExactly(tx: Transaction, frames: seq<Frame>, internal: seq<Transfer>, k: nat)
    requires IsInternal(frames, internal) && IsOwnCall(tx, frames, k)
    ensures Amount(tx.value).Some?
    ensures var value := Amount(tx.value).value;
            value > 0 ==>
              NativeMoved(TopLevel(tx, RootTraced(frames)) + internal, tx.from, tx.to)
                == (if RootTraced(frames) then 1 else 2) * value
  {
    hide Amount, Traced, IsInternal, RootTraced;
    NativeTotal(tx, frames, internal, tx.from, tx.to);
    OwnCallTraced(tx, frames, k, |frames|);
    var top := TopLevel(tx, RootTraced(frames));
    assert |top| == 1 ==> top[..0] == [];
  }

  /** A root frame without a trace address: one wei sent, two wei reported. */
  lemma ValueCountedTwice()
    ensures var tx := Transaction("0xa", "0xb", "0x1");
            var root := Frame(Some(Action("call", "0xa", "0xb", "0x1")), "", None);
            var internal := [Transfer("0xa", "0xb", 1, NATIVE)];
            IsInternal([root], internal) && NativeMoved(TopLevel(tx, RootTraced([root])) + internal, "0xa", "0xb") == 2
  {
    var tx := Transaction("0xa", "0xb", "0x1");
    var root := Frame(Some(Action("call", "0xa", "0xb", "0x1")), "", None);
    var internal := [Transfer("0xa", "0xb", 1, NATIVE)];
    OneWei();
    hide Amount;
    assert Eligible([root], root);
    forall t: Transfer ensures t in internal <==>
        t.contract == NATIVE && t.amount > 0 && t.amount == Traced([root], 1, t.sender, t.recipient) {
      assert Traced([root], 1, t.sender, t.recipient) == Moved([root], root, t.sender, t.recipient);
    }
    ValueCountedOnceExactly(tx, [root], internal, 0);
  }
}
