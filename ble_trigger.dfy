/**
 * The wireless trigger (main/ble_trigger.c): two 128-bit service UUIDs, one per press kind, are
 * parsed from their text form; each advertisement whose UUID list holds one of them becomes a long
 * or a short press, debounced by the time of the last accepted trigger.
 */
module BleTrigger {
  import opened Common
  import Button

  /** The two trigger UUIDs in the text form of section 3 of RFC 4122. */
  const UuidShortText: string := "00000000-0000-0000-0000-000000000001"
  const UuidLongText: string := "00000000-0000-0000-0000-000000000002"

  const DebounceMs: nat := 500
  const DebounceUs: int := DebounceMs * 1000

  /** The character of hexadecimal digit `d`, lower case and upper case. */
  function LowerHexDigit(d: int): char
    requires 0 <= d < 16
  {
    if d < 10 then ('0' as int + d) as char else ('a' as int + d - 10) as char
  }

  function UpperHexDigit(d: int): char
    requires 0 <= d < 16
  {
    if d < 10 then ('0' as int + d) as char else ('A' as int + d - 10) as char
  }

  /** The value of a hexadecimal digit of either case, and -1 for every other character. */
  function HexVal(c: char): (v: int)
    ensures -1 <= v < 16
  {
    if '0' <= c <= '9' then c as int - '0' as int
    else if 'a' <= c <= 'f' then 10 + (c as int - 'a' as int)
    else if 'A' <= c <= 'F' then 10 + (c as int - 'A' as int)
    else -1
  }

  /**
   * `HexVal` reads exactly the hexadecimal digits: a character it gives a value is that digit in
   * lower or upper case, and every digit character of either case gets its digit's value.
   */
  lemma HexValOnlyDigits(c: char)
    ensures HexVal(c) >= 0 ==> c == LowerHexDigit(HexVal(c)) || c == UpperHexDigit(HexVal(c))
  {
  }

  lemma HexValOfDigits(d: int)
    requires 0 <= d < 16
    ensures HexVal(LowerHexDigit(d)) == d && HexVal(UpperHexDigit(d)) == d
  {
  }

  function Cons(b: byte, r: Option<seq<byte>>): Option<seq<byte>>
  {
    match r
    case None => None
    case Some(t) => Some([b] + t)
  }

  /** `r` with `pre` put in front of the bytes it holds. */
  function Prefixed(pre: seq<byte>, r: Option<seq<byte>>): Option<seq<byte>>
  {
    match r
    case None => None
    case Some(t) => Some(pre + t)
  }

  lemma PrefixedCons(pre: seq<byte>, b: byte, r: Option<seq<byte>>)
    ensures Prefixed(pre, Cons(b, r)) == Prefixed(pre + [b], r)
    ensures Prefixed(pre, Cons(b, r)).Some? ==> |Prefixed(pre, Cons(b, r)).value| > |pre|
  {
    if r.Some? {
      assert pre + ([b] + r.value) == pre + [b] + r.value;
    }
  }

  /**
   * The bytes spelled by `s` from position `i` on, as the parser reads it: a '-' standing where a
   * byte starts is skipped, every other character must start a pair of hexadecimal digits. `None`
   * when a character is not a hexadecimal digit or a pair is cut short by the end of the string.
   */
  function HexBytesFrom(s: string, i: nat): Option<seq<byte>>
    requires i <= |s|
    decreases |s| - i
  {
    if i == |s| then Some([])
    else if s[i] == '-' then HexBytesFrom(s, i + 1)
    else if HexVal(s[i]) < 0 || i + 1 == |s| || HexVal(s[i + 1]) < 0 then None
    else Cons((HexVal(s[i]) * 16 + HexVal(s[i + 1])) as byte, HexBytesFrom(s, i + 2))
  }

  function HexBytes(s: string): Option<seq<byte>>
  {
    HexBytesFrom(s, 0)
  }

  /** Reading from position `i` does not depend on the `k` characters dropped in front. */
  lemma {:induction false} HexBytesFromSuffix(s: string, k: nat, i: nat)
    requires k <= i <= |s|
    ensures HexBytesFrom(s, i) == HexBytesFrom(s[k..], i - k)
    decreases |s| - i
  {
    var t := s[k..];
    if i == |s| {
    } else if s[i] == '-' {
      assert t[i - k] == s[i];
      HexBytesFromSuffix(s, k, i + 1);
    } else if HexVal(s[i]) < 0 || i + 1 == |s| || HexVal(s[i + 1]) < 0 {
      assert t[i - k] == s[i];
      assert i + 1 < |s| ==> t[i + 1 - k] == s[i + 1];
    } else {
      assert t[i - k] == s[i] && t[i + 1 - k] == s[i + 1];
      HexBytesFromSuffix(s, k, i + 2);
    }
  }

  function Reverse(s: seq<byte>): (r: seq<byte>)
    ensures |r| == |s|
    ensures forall i :: 0 <= i < |s| ==> r[i] == s[|s| - 1 - i]
  {
    seq(|s|, i requires 0 <= i < |s| => s[|s| - 1 - i])
  }

  /**
   * The 16 little-endian bytes of a UUID text: exactly 16 bytes read in text (big-endian) order,
   * then reversed into the byte order Bluetooth uses for 128-bit UUIDs in advertising data.
   */
  function UuidLe(s: string): Option<seq<byte>>
  {
    match HexBytes(s)
    case None => None
    case Some(be) => if |be| == 16 then Some(Reverse(be)) else None
  }

  /** A text a C string can hold: no NUL before its end. */
  predicate CString(s: string)
  {
    forall i :: 0 <= i < |s| ==> s[i] != '\0'
  }

  /**
   * `s_ble_parse_uuid128_le`: on success `outLe` holds the parsed UUID, little-endian; on failure
   * it is left as it was. The text is a C string, so it holds no NUL.
   */
  method ParseUuid128Le(uuid: string, outLe: array<byte>) returns (ok: bool)
    requires outLe.Length == 16
    requires CString(uuid)
    modifies outLe
    ensures ok <==> UuidLe(uuid).Some?
    ensures ok ==> outLe[..] == UuidLe(uuid).value
    ensures !ok ==> outLe[..] == old(outLe[..])
  {
    var be;
    ok, be := ReadUuidBytes(uuid);
    if !ok {
      return;
    }
    ghost var parsed := be[..];
    for i := 0 to 16
      invariant be[..] == parsed
      invariant forall k :: 0 <= k < i ==> outLe[k] == parsed[15 - k]
    {
      outLe[i] := be[15 - i];
    }
    assert outLe[..] == Reverse(parsed);
  }

  /** The parsing loop: 16 bytes in text order into a fresh buffer, or failure. */
  method ReadUuidBytes(uuid: string) returns (ok: bool, be: array<byte>)
    ensures fresh(be) && be.Length == 16
    ensures ok <==> UuidLe(uuid).Some?
    ensures ok ==> HexBytes(uuid) == Some(be[..])
  {
    be := new byte[16];
    var idx := 0;
    var p := 0;
    PrefixedNothing(HexBytes(uuid));
    while p < |uuid|
      invariant 0 <= p <= |uuid| && 0 <= idx <= 16
      invariant HexBytes(uuid) == Prefixed(be[..idx], HexBytesFrom(uuid, p))
    {
      if uuid[p] == '-' {
        p := p + 1;
      } else {
        var hi := HexVal(uuid[p]);
        var lo := if p + 1 < |uuid| then HexVal(uuid[p + 1]) else -1;
        if hi < 0 || lo < 0 {
          Rejected(uuid, be[..idx], p);
          return false, be;
        }
        var b := (hi * 16 + lo) as byte;
        PrefixedCons(be[..idx], b, HexBytesFrom(uuid, p + 2));
        if idx == 16 {
          TooManyBytes(uuid, be[..idx] + [b], HexBytesFrom(uuid, p + 2));
          return false, be;
        }
        ghost var pre := be[..idx];
        be[idx] := b;
        assert be[..idx + 1] == pre + [b];
        idx := idx + 1;
        p := p + 2;
      }
    }
    PrefixedAll(be[..idx]);
    if idx != 16 {
      WrongLength(uuid, be[..idx]);
      return false, be;
    }
    assert be[..idx] == be[..];
    return true, be;
  }

  lemma PrefixedNothing(r: Option<seq<byte>>)
    ensures Prefixed([], r) == r
  {
    if r.Some? {
      assert [] + r.value == r.value;
    }
  }

  lemma PrefixedAll(pre: seq<byte>)
    ensures Prefixed(pre, Some([])) == Some(pre)
  {
    assert pre + [] == pre;
  }

  /** Fewer or more than 16 bytes make the whole text fail. */
  lemma WrongLength(uuid: string, bytes: seq<byte>)
    requires HexBytes(uuid) == Some(bytes) && |bytes| != 16
    ensures UuidLe(uuid) == None
  {
  }

  /** A character that cannot start or finish a byte makes the whole text fail. */
  lemma Rejected(uuid: string, pre: seq<byte>, p: nat)
    requires p < |uuid| && uuid[p] != '-'
    requires HexVal(uuid[p]) < 0 || p + 1 == |uuid| || HexVal(uuid[p + 1]) < 0
    requires HexBytes(uuid) == Prefixed(pre, HexBytesFrom(uuid, p))
    ensures UuidLe(uuid) == None
  {
  }

  /** A seventeenth byte makes the whole text fail. */
  lemma TooManyBytes(uuid: string, pre: seq<byte>, r: Option<seq<byte>>)
    requires |pre| > 16
    requires HexBytes(uuid) == Prefixed(pre, r)
    ensures UuidLe(uuid) == None
  {
  }

  /** The text of a byte string, two lower-case hexadecimal digits per byte. */
  function HexByte(b: byte): string
  {
    [LowerHexDigit(b as int / 16), LowerHexDigit(b as int % 16)]
  }

  function HexString(bs: seq<byte>): string
  {
    if bs == [] then "" else HexByte(bs[0]) + HexString(bs[1..])
  }

  lemma {:induction false} HexStringAppend(a: seq<byte>, b: seq<byte>)
    ensures HexString(a + b) == HexString(a) + HexString(b)
  {
    if a == [] {
      assert a + b == b;
    } else {
      assert (a + b)[0] == a[0] && (a + b)[1..] == a[1..] + b;
      HexStringAppend(a[1..], b);
      assert HexByte(a[0]) + (HexString(a[1..]) + HexString(b)) == HexString(a) + HexString(b);
    }
  }

  /** The text form of a UUID given big-endian: 8-4-4-4-12 hexadecimal digits. */
  function FormatUuid(be: seq<byte>): string
    requires |be| == 16
  {
    HexString(be[..4]) + ("-" + (HexString(be[4..6]) + ("-" + (HexString(be[6..8]) + ("-"
      + (HexString(be[8..10]) + ("-" + HexString(be[10..]))))))))
  }

  /** A '-' where a byte starts is invisible to the parser. */
  lemma DashSkipped(rest: string)
    ensures HexBytes("-" + rest) == HexBytes(rest)
  {
    assert ("-" + rest)[1..] == rest;
    HexBytesFromSuffix("-" + rest, 1, 1);
  }

  /** Reading the hexadecimal text of `bs` yields `bs`, then whatever the rest yields. */
  lemma {:induction false} HexStringParses(bs: seq<byte>, rest: string)
    ensures HexBytes(HexString(bs) + rest) == Prefixed(bs, HexBytes(rest))
  {
    if bs == [] {
      assert HexString(bs) + rest == rest;
      assert HexBytes(rest).Some? ==> [] + HexBytes(rest).value == HexBytes(rest).value;
    } else {
      var s := HexString(bs) + rest;
      var b := bs[0];
      assert s == HexByte(b) + (HexString(bs[1..]) + rest);
      assert s[2..] == HexString(bs[1..]) + rest;
      HexBytesFromSuffix(s, 2, 2);
      HexStringParses(bs[1..], rest);
      HexValOfDigits(b as int / 16);
      HexValOfDigits(b as int % 16);
      assert (HexVal(s[0]) * 16 + HexVal(s[1])) as byte == b;
      assert HexBytes(s) == Cons(b, Prefixed(bs[1..], HexBytes(rest)));
      assert [b] + bs[1..] == bs;
      if HexBytes(rest).Some? {
        assert [b] + (bs[1..] + HexBytes(rest).value) == bs + HexBytes(rest).value;
      }
    }
  }

  /** Parsing the text form of a UUID gives back its 16 bytes, reversed. */
  lemma FormatParses(be: seq<byte>)
    requires |be| == 16
    ensures UuidLe(FormatUuid(be)) == Some(Reverse(be))
  {
    var t4 := HexString(be[10..]);
    var t3 := HexString(be[8..10]) + ("-" + t4);
    var t2 := HexString(be[6..8]) + ("-" + t3);
    var t1 := HexString(be[4..6]) + ("-" + t2);
    var t0 := HexString(be[..4]) + ("-" + t1);
    assert t0 == FormatUuid(be);
    HexStringParses(be[10..], []);
    assert t4 + [] == t4 && HexBytes([]) == Some([]);
    assert be[10..] + [] == be[10..];
    assert HexBytes(t4) == Some(be[10..]);
    DashSkipped(t4);
    HexStringParses(be[8..10], "-" + t4);
    assert HexBytes(t3) == Some(be[8..10] + be[10..]);
    DashSkipped(t3);
    HexStringParses(be[6..8], "-" + t3);
    assert HexBytes(t2) == Some(be[6..8] + (be[8..10] + be[10..]));
    DashSkipped(t2);
    HexStringParses(be[4..6], "-" + t2);
    DashSkipped(t1);
    HexStringParses(be[..4], "-" + t1);
    assert HexBytes(t0) == Some(be[..4] + (be[4..6] + (be[6..8] + (be[8..10] + be[10..]))));
    assert be[..4] + (be[4..6] + (be[6..8] + (be[8..10] + be[10..]))) == be;
  }

  const ShortUuidBe: seq<byte> := [0, 0, 0, 0, 0, 0, 0, 0, 0, 0, 0, 0, 0, 0, 0, 1]
  const LongUuidBe: seq<byte> := [0, 0, 0, 0, 0, 0, 0, 0, 0, 0, 0, 0, 0, 0, 0, 2]

  /** Zero bytes print as zero digits, two per byte. */
  lemma {:induction false} ZeroBytesHex(bs: seq<byte>)
    requires forall i :: 0 <= i < |bs| ==> bs[i] == 0
    ensures HexString(bs) == seq(2 * |bs|, _ => '0')
  {
    if bs != [] {
      ZeroBytesHex(bs[1..]);
      assert HexByte(bs[0]) == "00";
      assert "00" + seq(2 * (|bs| - 1), _ => '0') == seq(2 * |bs|, _ => '0');
    }
  }

  /** The text form of a UUID whose first fifteen bytes are zero and whose last is `b`. */
  lemma LastByteUuidText(be: seq<byte>, b: byte, text: string)
    requires be == [0, 0, 0, 0, 0, 0, 0, 0, 0, 0, 0, 0, 0, 0, 0, b]
    requires text == "00000000" + ("-" + ("0000" + ("-" + ("0000" + ("-" + ("0000" + ("-"
      + ("0000000000" + HexByte(b)))))))))
    ensures FormatUuid(be) == text
  {
    ZeroBytesHex(be[..4]);
    ZeroBytesHex(be[4..6]);
    ZeroBytesHex(be[6..8]);
    ZeroBytesHex(be[8..10]);
    ZeroBytesHex(be[10..15]);
    assert be[10..] == be[10..15] + [b];
    HexStringAppend(be[10..15], [b]);
    assert HexString([b]) == HexByte(b) + HexString([]);
    assert seq(8, _ => '0') == "00000000";
    assert seq(4, _ => '0') == "0000";
    assert seq(10, _ => '0') == "0000000000";
  }

  /** The short-press UUID parses to the reversal of its big-endian bytes 00..00 01. */
  lemma ShortUuidLe()
    ensures UuidLe(UuidShortText) == Some(Reverse(ShortUuidBe))
  {
    assert UuidShortText == FormatUuid(ShortUuidBe) by {
      assert HexByte(1) == "01";
      LastByteUuidText(ShortUuidBe, 1, UuidShortText);
    }
    FormatParses(ShortUuidBe);
  }

  /** The long-press UUID parses to the reversal of its big-endian bytes 00..00 02. */
  lemma LongUuidLe()
    ensures UuidLe(UuidLongText) == Some(Reverse(LongUuidBe))
  {
    assert UuidLongText == FormatUuid(LongUuidBe) by {
      assert HexByte(2) == "02";
      LastByteUuidText(LongUuidBe, 2, UuidLongText);
    }
    FormatParses(LongUuidBe);
  }

  /** Little-endian, the short UUID is 0x01 then fifteen zeros, the long one 0x02 then fifteen zeros. */
  lemma TriggerUuidBytes()
    ensures Reverse(ShortUuidBe) == [1, 0, 0, 0, 0, 0, 0, 0, 0, 0, 0, 0, 0, 0, 0, 0]
    ensures Reverse(LongUuidBe) == [2, 0, 0, 0, 0, 0, 0, 0, 0, 0, 0, 0, 0, 0, 0, 0]
  {
  }

  /** Both trigger texts are C strings. */
  lemma TriggerTextsAreCStrings()
    ensures CString(UuidShortText) && CString(UuidLongText)
  {
  }

  /** A trigger at `nowUs` is taken only when at least 500 ms have passed since the last one taken. */
  predicate Accepts(lastUs: int, nowUs: int)
  {
    nowUs - lastUs >= DebounceUs
  }

  /** The press each trigger kind stands for. */
  function PressOf(isLong: bool): Button.Press
  {
    if isLong then Button.LongPress else Button.ShortPress
  }

  /**
   * The trigger times taken out of `times`, starting from the last taken time `lastUs`: each one
   * taken is at least 500 ms after the one taken before it (or after `lastUs`), and every one
   * dropped came less than 500 ms after the last one taken.
   */
  function Debounced(lastUs: int, times: seq<int>): (r: seq<int>)
    ensures |r| <= |times|
    ensures forall i :: 0 <= i < |r| ==> r[i] in times
    ensures r != [] ==> Accepts(lastUs, r[0])
    ensures forall i :: 0 < i < |r| ==> Accepts(r[i - 1], r[i])
    decreases |times|
  {
    if times == [] then []
    else if Accepts(lastUs, times[0]) then [times[0]] + Debounced(times[0], times[1..])
    else Debounced(lastUs, times[1..])
  }

  /** The time of the last trigger taken, once `times` have come in. */
  function LastTaken(lastUs: int, times: seq<int>): int
  {
    var r := Debounced(lastUs, times);
    if r == [] then lastUs else r[|r| - 1]
  }

  /** `n + 1` copies of a press are `n` copies followed by one more. */
  lemma PressesSnoc(n: nat, p: Button.Press)
    ensures seq(n + 1, _ => p) == seq(n, _ => p) + [p]
  {
  }

  /** One more trigger extends the taken times by that trigger exactly when it is accepted. */
  lemma {:induction false} DebouncedSnoc(lastUs: int, times: seq<int>, t: int)
    ensures Debounced(lastUs, times + [t]) == Debounced(lastUs, times)
      + (if Accepts(LastTaken(lastUs, times), t) then [t] else [])
    decreases |times|
  {
    if times == [] {
      assert Debounced(lastUs, [t][1..]) == [];
    } else {
      assert (times + [t])[0] == times[0] && (times + [t])[1..] == times[1..] + [t];
      if Accepts(lastUs, times[0]) {
        DebouncedSnoc(times[0], times[1..], t);
        assert LastTaken(lastUs, times) == LastTaken(times[0], times[1..]);
      } else {
        DebouncedSnoc(lastUs, times[1..], t);
      }
    }
  }

  /** Everything before 500 ms of uptime is dropped, since the last trigger time starts at 0. */
  lemma {:induction false} EarlyTriggersDropped(times: seq<int>)
    requires forall i :: 0 <= i < |times| ==> times[i] < DebounceUs
    ensures Debounced(0, times) == []
    decreases |times|
  {
    if times != [] {
      EarlyTriggersDropped(times[1..]);
    }
  }

  /**
   * The trigger state kept across scan events: the two UUIDs little-endian, the time of the last
   * trigger taken, and whether the scan that delivers advertisements is running.
   */
  class Trigger {
    var shortUuid: seq<byte>
    var longUuid: seq<byte>
    var lastTriggerUs: int
    var scanning: bool

    /**
     * `ble_trigger_init` followed by the host stack's sync callback `s_ble_on_sync`: `nvsErr` is what
     * the (possibly retried) storage initialisation returned, `hostErr` what the host stack's
     * initialisation returned, and `scanRc` what `ble_gap_disc` returned when the sync callback
     * started the scan. The UUIDs are installed once storage is up (until then they keep their zero
     * initial value). The scan runs only when storage and the host stack came up and `ble_gap_disc`
     * succeeded; its failure is only logged.
     */
    constructor Init(nvsErr: int, hostErr: int, scanRc: int)
      ensures scanning <==> nvsErr == EspOk && hostErr == EspOk && scanRc == 0
      ensures nvsErr == EspOk ==> shortUuid == [1, 0, 0, 0, 0, 0, 0, 0, 0, 0, 0, 0, 0, 0, 0, 0]
      ensures nvsErr == EspOk ==> longUuid == [2, 0, 0, 0, 0, 0, 0, 0, 0, 0, 0, 0, 0, 0, 0, 0]
      ensures nvsErr != EspOk ==> shortUuid == Zeros(16) && longUuid == Zeros(16)
      ensures lastTriggerUs == 0
    {
      var shortLe := new byte[16](_ => 0);
      var longLe := new byte[16](_ => 0);
      if nvsErr == EspOk {
        TriggerTextsAreCStrings();
        ShortUuidLe();
        LongUuidLe();
        TriggerUuidBytes();
        var okShort := ParseUuid128Le(UuidShortText, shortLe);
        var okLong := false;
        if okShort {
          okLong := ParseUuid128Le(UuidLongText, longLe);
        }
        if !okShort || !okLong {
          assert false;
        }
      }
      shortUuid := shortLe[..];
      longUuid := longLe[..];
      lastTriggerUs := 0;
      scanning := false;
      if nvsErr == EspOk && hostErr == EspOk {
        // The host task runs and, once synced, starts the scan.
        scanning := scanRc == 0;
      }
    }

    /**
     * `s_ble_handle_trigger`: a trigger taken records its time and yields exactly one press of its
     * kind; one that comes too soon yields nothing and changes nothing.
     */
    method HandleTrigger(nowUs: int, isLong: bool) returns (press: Option<Button.Press>)
      modifies this`lastTriggerUs
      ensures Accepts(old(lastTriggerUs), nowUs) ==> lastTriggerUs == nowUs && press == Some(PressOf(isLong))
      ensures !Accepts(old(lastTriggerUs), nowUs) ==> lastTriggerUs == old(lastTriggerUs) && press == None
    {
      if nowUs - lastTriggerUs < DebounceUs {
        return None;
      }
      lastTriggerUs := nowUs;
      if isLong {
        press := Some(Button.LongPress);
      } else {
        press := Some(Button.ShortPress);
      }
    }

    /** A run of triggers: the presses produced are those of the debounced times, in order. */
    method HandleTriggers(times: seq<int>, isLong: bool) returns (presses: seq<Button.Press>)
      modifies this`lastTriggerUs
      ensures presses == seq(|Debounced(old(lastTriggerUs), times)|, _ => PressOf(isLong))
      ensures lastTriggerUs == LastTaken(old(lastTriggerUs), times)
    {
      ghost var first := lastTriggerUs;
      presses := [];
      for i := 0 to |times|
        invariant presses == seq(|Debounced(first, times[..i])|, _ => PressOf(isLong))
        invariant lastTriggerUs == LastTaken(first, times[..i])
      {
        DebouncedSnoc(first, times[..i], times[i]);
        assert times[..i + 1] == times[..i] + [times[i]];
        var press := HandleTrigger(times[i], isLong);
        if press.Some? {
          PressesSnoc(|Debounced(first, times[..i])|, press.value);
          presses := presses + [press.value];
        }
      }
      assert times[..|times|] == times;
    }

    /**
     * The UUID part of `s_ble_gap_event`: the flags raised while scanning the advertised list, then
     * long before short, and nothing when neither trigger is listed.
     */
    method OnAdvertisement(uuids: seq<seq<byte>>, nowUs: int) returns (press: Option<Button.Press>)
      modifies this`lastTriggerUs
      ensures var choice := Choose(uuids, shortUuid, longUuid);
        if choice.Some? && Accepts(old(lastTriggerUs), nowUs) then
          press == Some(PressOf(choice.value)) && lastTriggerUs == nowUs
        else
          press == None && lastTriggerUs == old(lastTriggerUs)
    {
      var choice := SelectTrigger(uuids, shortUuid, longUuid);
      press := None;
      if choice.Some? {
        press := HandleTrigger(nowUs, choice.value);
      }
    }
  }

  /** Which trigger an advertisement asks for: `Some(true)` long, `Some(false)` short, `None` none. */
  function Choose(uuids: seq<seq<byte>>, shortUuid: seq<byte>, longUuid: seq<byte>): Option<bool>
  {
    if longUuid in uuids then Some(true)
    else if shortUuid in uuids then Some(false)
    else None
  }

  /** The scan of the advertised 128-bit UUIDs, comparing each with both triggers. */
  method SelectTrigger(uuids: seq<seq<byte>>, shortUuid: seq<byte>, longUuid: seq<byte>)
    returns (choice: Option<bool>)
    ensures choice == Choose(uuids, shortUuid, longUuid)
  {
    var foundShort := false;
    var foundLong := false;
    for i := 0 to |uuids|
      invariant foundShort <==> shortUuid in uuids[..i]
      invariant foundLong <==> longUuid in uuids[..i]
    {
      assert uuids[..i + 1] == uuids[..i] + [uuids[i]];
      if uuids[i] == shortUuid {
        foundShort := true;
      }
      if uuids[i] == longUuid {
        foundLong := true;
      }
    }
    assert uuids[..|uuids|] == uuids;
    if foundLong {
      choice := Some(true);
    } else if foundShort {
      choice := Some(false);
    } else {
      choice := None;
    }
  }

  /** Listing the long trigger always wins; listing neither never fires. */
  lemma LongWins(uuids: seq<seq<byte>>, shortUuid: seq<byte>, longUuid: seq<byte>)
    ensures longUuid in uuids ==> Choose(uuids, shortUuid, longUuid) == Some(true)
    ensures Choose(uuids, shortUuid, longUuid) == None <==> longUuid !in uuids && shortUuid !in uuids
    ensures Choose(uuids, shortUuid, longUuid) == Some(false) <==> longUuid !in uuids && shortUuid in uuids
  {
  }
}
