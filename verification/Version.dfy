/** The "version" command of src/host_command.cpp: every chunk that brings text is read as a
    hexadecimal number on its own, and the last one stays. */
module Versions {
  import opened Options
  import opened Text
  import opened Protocol
  import opened DeviceList

  // ---------------------------------------------------------------------------
  // std::stoi with base 16
  // ---------------------------------------------------------------------------

  function AnyHexValue(c: char): Option<nat> {
    if 'A' <= c <= 'F' then Some(c as int - 'A' as int + 10) else HexValue(c)
  }

  /** The value of the hex digits s starts with, after `sofar`. */
  function HexPrefix(s: string, sofar: nat): nat
    decreases |s|
  {
    if s == "" || AnyHexValue(s[0]).None? then sofar
    else HexPrefix(s[1..], 16 * sofar + AnyHexValue(s[0]).value)
  }

  function AfterPrefix(u: string): string {
    if |u| > 2 && u[0] == '0' && (u[1] == 'x' || u[1] == 'X') && AnyHexValue(u[2]).Some? then u[2..] else u
  }

  /** White space, a sign and "0x" are optional; None where the source throws. */
  function StoiHex(s: string): Option<int> {
    var t := DropSpace(s);
    var digits := AfterPrefix(AfterSign(t));
    if digits == "" || AnyHexValue(digits[0]).None? then None
    else
      var n := HexPrefix(digits, 0);
      var v: int := if t[0] == '-' then -(n as int) else n;
      if -INT_MAX - 1 <= v <= INT_MAX then Some(v) else None
  }

  // ---------------------------------------------------------------------------
  // The callback
  // ---------------------------------------------------------------------------

  datatype State = State(status: int, version: int, error: string)

  function VersionStep(chunk: string, s: State): Option<State> {
    match ReadChunk(chunk, Reply(s.status, "", s.error))
    case None => None
    case Some(r) =>
      if r.status != -1 && r.result != "" then
        match StoiHex(r.result)
        case None => None
        case Some(v) => Some(State(r.status, v, r.error))
      else Some(State(r.status, s.version, r.error))
  }

  function VersionAll(chunks: seq<string>, s: State): Option<State>
    decreases |chunks|
  {
    if chunks == [] then Some(s)
    else
      match VersionStep(chunks[0], s)
      case None => None
      case Some(next) => VersionAll(chunks[1..], next)
  }

  class VersionCommand {
    var status: int
    var version: int
    var error: string

    function Gathered(): State
      reads this
    {
      State(status, version, error)
    }

    /** False where the source reads past the chunk or throws. */
    method OnVersionMessage(buf: string) returns (defined: bool)
      modifies this
      ensures defined <==> VersionStep(buf, old(Gathered())).Some?
      ensures defined ==> Gathered() == VersionStep(buf, old(Gathered())).value
    {
      var data := "";
      var r := ReadProtocolString(buf, data, error);
      assert r == ReadChunk(buf, Reply(status, "", error));
      if r.None? {
        return false;
      }
      status, data, error := r.value.status, r.value.result, r.value.error;
      if status != -1 && data != "" {
        var v := StoiHex(data);
        if v.None? {
          return false;
        }
        version := v.value;
      }
      return true;
    }
  }

  // ---------------------------------------------------------------------------
  // Reading a version back
  // ---------------------------------------------------------------------------

  /** Both readers of hex digits agree: one looks at the last digit, the other at the first. */
  lemma {:induction false} ReadsOn(a: string, b: string, n: nat)
    requires ReadHex(a) == Some(n) && LowerHex(b)
    ensures ReadHex(a + b) == Some(HexPrefix(b, n))
    decreases |b|
  {
    if b == "" {
      assert a + b == a;
    } else {
      var next := 16 * n + HexValue(b[0]).value;
      ReadLast(a, b[0], n);
      ReadsOn(a + [b[0]], b[1..], next);
      assert a + b == a + [b[0]] + b[1..];
      HexPrefixFirst(b, n);
    }
  }

  lemma ReadLast(s: string, c: char, n: nat)
    requires ReadHex(s) == Some(n) && HexValue(c).Some?
    ensures ReadHex(s + [c]) == Some(16 * n + HexValue(c).value)
  {
    assert (s + [c])[..|s|] == s;
  }

  lemma HexPrefixFirst(s: string, n: nat)
    requires s != "" && HexValue(s[0]).Some?
    ensures HexPrefix(s, n) == HexPrefix(s[1..], 16 * n + HexValue(s[0]).value)
  {
  }

  /** A short string of lower-case hex digits is read as its value. */
  lemma StoiOfHex(s: string)
    requires LowerHex(s) && 0 < |s| <= 4
    ensures ReadHex(s).Some? && StoiHex(s) == Some(ReadHex(s).value)
  {
    ReadsOn("", s, 0);
    assert "" + s == s;
    ShortHexBound(s);
    PlainDigits(s);
    StoiOfPlain(s, HexPrefix(s, 0));
  }

  lemma StoiOfPlain(s: string, n: nat)
    requires s != "" && s[0] != '-' && AnyHexValue(s[0]).Some?
    requires DropSpace(s) == s && AfterPrefix(AfterSign(s)) == s && HexPrefix(s, 0) == n && n <= INT_MAX
    ensures StoiHex(s) == Some(n)
  {
  }

  /** Neither space nor sign nor "0x" is dropped from lower-case hex digits. */
  lemma PlainDigits(s: string)
    requires LowerHex(s) && s != ""
    ensures DropSpace(s) == s && AfterPrefix(AfterSign(s)) == s && s[0] != '-' && AnyHexValue(s[0]).Some?
  {
    assert HexValue(s[0]).Some?;
    assert |s| > 1 ==> HexValue(s[1]).Some?;
  }

  lemma {:induction false} ShortHexBound(s: string)
    requires |s| <= 4 && ReadHex(s).Some?
    ensures ReadHex(s).value < 0x1_0000
    ensures |s| <= 3 ==> ReadHex(s).value < 0x1000
    ensures |s| <= 2 ==> ReadHex(s).value < 0x100
    ensures |s| <= 1 ==> ReadHex(s).value < 0x10
    ensures s == "" ==> ReadHex(s).value == 0
  {
    if s != "" {
      ShortHexBound(s[..|s| - 1]);
    }
  }

  lemma {:induction false} HexIsLower(n: nat, width: nat)
    ensures LowerHex(Hex(n, width))
    decreases n, width
  {
    if !(n < 16 && width <= 1) {
      HexIsLower(n / 16, if width == 0 then 0 else width - 1);
    }
  }

  function VersionReply(v: nat): string { OkayReply("0004", Hex(v, 4)) }

  lemma OneChunk(c: string, s: State)
    ensures VersionAll([c], s) == VersionStep(c, s)
  {
    assert [c][1..] == [];
    if VersionStep(c, s).Some? {
      assert VersionAll([], VersionStep(c, s).value) == VersionStep(c, s);
    }
  }

  lemma TwoChunks(a: string, b: string, s: State)
    ensures VersionAll([a, b], s) ==
            match VersionStep(a, s)
            case None => None
            case Some(t) => VersionStep(b, t)
  {
    assert [a, b][1..] == [b];
    if VersionStep(a, s).Some? {
      OneChunk(b, VersionStep(a, s).value);
    }
  }

  /** A chunk whose text is at most four digits is read as their value. */
  lemma DigitsGiveVersion(chunk: string, digits: string, s: State)
    requires LowerHex(digits) && 0 < |digits| <= 4
    requires ReadChunk(chunk, Reply(s.status, "", s.error)) == Some(Reply(0, digits, s.error))
    ensures ReadHex(digits).Some?
    ensures VersionStep(chunk, s) == Some(State(0, ReadHex(digits).value, s.error))
  {
    StoiOfHex(digits);
  }

  /** A chunk with the whole header brings what comes after it. */
  lemma HeaderChunk(digits: string, s: State)
    requires LowerHex(digits) && |digits| <= 4
    ensures ReadHex(digits).Some?
    ensures VersionStep(OKAY + "0004" + digits, s) ==
            Some(State(0, if digits == "" then s.version else ReadHex(digits).value, s.error))
  {
    HeaderText(digits, s);
    if digits != "" {
      DigitsGiveVersion(OKAY + "0004" + digits, digits, s);
    }
  }

  lemma HeaderText(digits: string, s: State)
    requires LowerHex(digits)
    ensures ReadChunk(OKAY + "0004" + digits, Reply(s.status, "", s.error)) == Some(Reply(0, digits, s.error))
  {
    var chunk := OKAY + "0004" + digits;
    assert chunk[..4] == OKAY && chunk[8..] == digits;
    LowerHexHasNoNul(digits);
    assert "" + digits == digits;
  }

  lemma LowerHexHasNoNul(s: string)
    requires LowerHex(s)
    ensures CString(s) == s
  {
    forall i | 0 <= i < |s| ensures s[i] != NUL { assert HexValue(s[i]).Some?; }
    NulFree(s);
  }

  /** An uncut reply gives the version. */
  lemma VersionUncut(v: nat, s: State)
    requires v <= 0xFFFF
    ensures VersionAll([VersionReply(v)], s) == Some(State(0, v, s.error))
  {
    HexWidth(v);
    HexReads(v, 4);
    HexIsLower(v, 4);
    OneChunk(VersionReply(v), s);
    HeaderChunk(Hex(v, 4), s);
  }

  lemma HexStep(n: nat, width: nat)
    requires width >= 2
    ensures Hex(n, width) == Hex(n / 16, width - 1) + [HexDigit(n % 16)]
  {
  }

  /** The last digits of a four-digit number. */
  lemma LastDigits(v: nat, n1: nat, n2: nat)
    requires v <= 0xFFFF && n1 == v / 16 && n2 == n1 / 16
    ensures var s, a, b, c := Hex(v, 4), HexDigit(n2 % 16), HexDigit(n1 % 16), HexDigit(v % 16);
            |s| == 4 && s[1..] == [a, b, c] && s[2..] == [b, c] && s[3..] == [c]
  {
    HexWidth(v);
    HexStep(v, 4);
    HexStep(n1, 3);
    HexStep(n2, 2);
    FourLetters(Hex(n2 / 16, 1), HexDigit(n2 % 16), HexDigit(n1 % 16), HexDigit(v % 16));
  }

  lemma FourLetters(h: string, a: char, b: char, c: char)
    requires |h| == 1
    ensures var s := h + [a] + [b] + [c];
            s[1..] == [a, b, c] && s[2..] == [b, c] && s[3..] == [c]
  {
  }

  lemma ModParts(v: nat, high: nat, low: nat, m: nat)
    requires v == m * high + low && low < m && (m == 0x100 || m == 0x1000)
    ensures v % m == low
  {
    if m == 0x100 {
      assert v == 0x100 * high + low;
    } else {
      assert v == 0x1000 * high + low;
    }
  }

  /** What is left of a four-digit number when its first digits are cut off. */
  lemma HexSuffix(v: nat, i: nat)
    requires v <= 0xFFFF && 1 <= i <= 3
    ensures |Hex(v, 4)| == 4
    ensures ReadHex(Hex(v, 4)[i..]) == Some(v % (if i == 1 then 0x1000 else if i == 2 then 0x100 else 0x10))
  {
    var n1 := v / 16;
    var n2 := n1 / 16;
    LastDigits(v, n1, n2);
    var a, b, c := n2 % 16, n1 % 16, v % 16;
    if i == 1 {
      ReadOne(a);
      ReadMore([HexDigit(a)], b);
      ReadMore([HexDigit(a)] + [HexDigit(b)], c);
      ModParts(v, n2 / 16, 16 * (16 * a + b) + c, 0x1000);
      assert [HexDigit(a), HexDigit(b), HexDigit(c)] == [HexDigit(a)] + [HexDigit(b)] + [HexDigit(c)];
    } else if i == 2 {
      ReadOne(b);
      ReadMore([HexDigit(b)], c);
      ModParts(v, n2, 16 * b + c, 0x100);
      assert [HexDigit(b), HexDigit(c)] == [HexDigit(b)] + [HexDigit(c)];
    } else {
      ReadOne(c);
    }
  }

  lemma ReadOne(d: nat)
    requires d < 16
    ensures HexValue(HexDigit(d)) == Some(d) && ReadHex([HexDigit(d)]) == Some(d)
  {
    assert [HexDigit(d)][..0] == "" && ReadHex("") == Some(0);
  }

  lemma ReadMore(s: string, d: nat)
    requires d < 16 && ReadHex(s).Some?
    ensures ReadHex(s + [HexDigit(d)]) == Some(16 * ReadHex(s).value + d)
  {
    ReadOne(d);
    ReadLast(s, HexDigit(d), ReadHex(s).value);
  }

  /** A reply cut in two gives a version other than the one already held exactly when the cut
      is after the status word, or so late that the digits before it are all zero: the digits
      after the cut are then read as a number of their own. */
  lemma VersionCut(v: nat, k: nat, s: State)
    requires v <= 0xFFFF && s.version != v && 0 < k < 12
    ensures var r := VersionReply(v);
            |r| == 12 &&
            (VersionAll([r[..k], r[k..]], s) == Some(State(0, v, s.error)) <==>
             k == 4 || (k >= 9 && v < Room(k)))
  {
    var r := VersionReply(v);
    HexWidth(v);
    if k == 4 {
      CutAfterStatus(v, s);
    } else if k < 8 {
      TwoChunks(r[..k], r[k..], s);
      EarlyCut(v, k, s);
    } else {
      LateValue(v, k, s);
      if k > 8 {
        ModSmall(v, Room(k));
      }
    }
  }

  lemma ModSmall(v: nat, m: nat)
    requires m > 0
    ensures v % m == v <==> v < m
  {
  }

  /** Cut inside the status word stoi throws; cut inside the length the source reads too far. */
  lemma EarlyCut(v: nat, k: nat, s: State)
    requires 0 < k < 8 && k != 4 && k < |VersionReply(v)|
    ensures VersionStep(VersionReply(v)[..k], s) == None
  {
    var c := VersionReply(v)[..k];
    if k < 4 {
      assert c == OKAY[..k];
      assert c[0] == 'O' && CString(c)[0] == 'O';
      assert ("" + CString(c))[0] == 'O';
    } else {
      assert c[..4] == OKAY;
    }
  }

  lemma CutAfterStatus(v: nat, s: State)
    requires v <= 0xFFFF
    ensures var r := VersionReply(v);
            VersionAll([r[..4], r[4..]], s) == Some(State(0, v, s.error))
  {
    var r, digits := VersionReply(v), Hex(v, 4);
    HexWidth(v);
    HexReads(v, 4);
    HexIsLower(v, 4);
    assert r[..4] == OKAY && r[4..] == "0004" + digits;
    TwoChunks(r[..4], r[4..], s);
    StatusChunk(s);
    LengthText(digits, State(0, s.version, s.error));
    DigitsGiveVersion(r[4..], digits, State(0, s.version, s.error));
  }

  lemma StatusChunk(s: State)
    ensures VersionStep(OKAY, s) == Some(State(0, s.version, s.error))
  {
  }

  lemma LengthText(digits: string, s: State)
    requires LowerHex(digits) && digits != ""
    ensures ReadChunk("0004" + digits, Reply(s.status, "", s.error)) == Some(Reply(0, digits, s.error))
  {
    LengthIsNoStatus("0004", "0004" + digits);
    assert ("0004" + digits)[4..] == digits && "" + digits == digits;
    LowerHexHasNoNul(digits);
  }

  /** The two chunks of a reply cut behind its header. */
  lemma LateChunks(v: nat, k: nat)
    requires v <= 0xFFFF && 8 <= k < 12
    ensures var r, digits := VersionReply(v), Hex(v, 4);
            |r| == 12 && |digits| == 4 && r[..k] == OKAY + "0004" + digits[..k - 8] && r[k..] == digits[k - 8..]
  {
    HexWidth(v);
  }

  /** The digits after the cut decide, unless there are none before it. */
  lemma LateResult(a: string, b: string, s: State)
    requires LowerHex(a) && LowerHex(b) && |a| + |b| == 4 && b != ""
    ensures ReadHex(b).Some?
    ensures VersionAll([OKAY + "0004" + a, b], s) ==
            Some(State(0, if a == "" then s.version else ReadHex(b).value, s.error))
  {
    HeaderChunk(a, s);
    var t := VersionStep(OKAY + "0004" + a, s).value;
    TwoChunks(OKAY + "0004" + a, b, s);
    StoiOfHex(b);
    if a == "" {
      BareDigits(b, t);
    } else {
      ShortChunk(b, t);
    }
  }

  /** One more than the largest number the digits after the cut can hold. */
  function Room(k: nat): nat
    requires 9 <= k < 12
  {
    if k == 9 then 0x1000 else if k == 10 then 0x100 else 0x10
  }

  lemma LateValue(v: nat, k: nat, s: State)
    requires v <= 0xFFFF && 8 <= k < 12
    ensures var r := VersionReply(v);
            |r| == 12 &&
            VersionAll([r[..k], r[k..]], s) == Some(State(0, if k == 8 then s.version else v % Room(k), s.error))
  {
    LateChunks(v, k);
    HexIsLower(v, 4);
    var a, b := Hex(v, 4)[..k - 8], Hex(v, 4)[k - 8..];
    LateResult(a, b, s);
    if k > 8 {
      HexSuffix(v, k - 8);
    }
  }

  /** Four digits on their own are taken for a status word. */
  lemma BareDigits(digits: string, s: State)
    requires LowerHex(digits) && |digits| == 4
    ensures VersionStep(digits, s) == Some(State(0, s.version, s.error))
  {
    assert digits[..4] == digits;
    LengthIsNoStatus(digits, digits);
  }

  /** A chunk of fewer than four digits is a number. */
  lemma ShortChunk(digits: string, s: State)
    requires LowerHex(digits) && 0 < |digits| < 4
    ensures ReadHex(digits).Some?
    ensures VersionStep(digits, s) == Some(State(0, ReadHex(digits).value, s.error))
  {
    LowerHexHasNoNul(digits);
    assert "" + digits == digits;
    DigitsGiveVersion(digits, digits, s);
  }

  /** A failure keeps the version already held, adds its message to the error and gives -1. */
  lemma VersionFailure(len: string, message: string, s: State)
    requires |len| == 4 && NUL !in message
    ensures VersionStep(FailReply(len, message), s) == Some(State(-1, s.version, s.error + message))
    ensures VersionStep(FAIL, s) == Some(s.(status := -1))
  {
    var f := FailReply(len, message);
    assert f[..4] == FAIL && f[8..] == message;
    NulFree(message);
  }

  // ---------------------------------------------------------------------------
  // Any number
  // ---------------------------------------------------------------------------

  const LOWER := "0123456789abcdef"
  const UPPER := "0123456789ABCDEF"

  lemma HexDigitsExactly(c: char, i: nat)
    requires i < 16
    ensures AnyHexValue(LOWER[i]) == AnyHexValue(UPPER[i]) == Some(i)
    ensures AnyHexValue(c).Some? <==> c in LOWER || c in UPPER
  {
    assert LOWER[i] == HexDigit(i) && UPPER[i] == if i < 10 then HexDigit(i) else (i - 10 + 'A' as int) as char;
    match AnyHexValue(c)
    case None =>
    case Some(v) =>
      assert LOWER[v] == HexDigit(v) && UPPER[v] == if v < 10 then HexDigit(v) else (v - 10 + 'A' as int) as char;
  }

  predicate AllHex(s: string) { forall i :: 0 <= i < |s| ==> AnyHexValue(s[i]).Some? }

  /** The value of hex digits of either case, the last one first. */
  function HexNumber(s: string): nat
    requires AllHex(s)
  {
    if s == "" then 0 else 16 * HexNumber(s[..|s| - 1]) + AnyHexValue(s[|s| - 1]).value
  }

  lemma HexNumberAppend(s: string, c: char)
    requires AllHex(s) && AnyHexValue(c).Some?
    ensures AllHex(s + [c]) && HexNumber(s + [c]) == 16 * HexNumber(s) + AnyHexValue(c).value
  {
    assert (s + [c])[..|s|] == s;
  }

  lemma {:induction false} HexPrefixCounts(a: string, b: string, rest: string)
    requires AllHex(a + b) && (rest == "" || AnyHexValue(rest[0]).None?)
    ensures AllHex(a) && HexPrefix(b + rest, HexNumber(a)) == HexNumber(a + b)
    decreases |b|
  {
    assert forall i :: 0 <= i < |a| ==> a[i] == (a + b)[i];
    if b == "" {
      assert a + b == a && b + rest == rest;
    } else {
      assert (a + b)[|a|] == b[0];
      HexNumberAppend(a, b[0]);
      assert a + [b[0]] + b[1..] == a + b && (b + rest)[1..] == b[1..] + rest;
      HexPrefixCounts(a + [b[0]], b[1..], rest);
    }
  }

  /** Where the digits begin: no second "0x" is dropped. */
  lemma DigitsAfterSign(sign: string, prefix: string, digits: string, rest: string)
    requires sign == "" || sign == "+" || sign == "-"
    requires prefix == "" || prefix == "0x" || prefix == "0X"
    requires AllHex(digits) && digits != "" && (rest == "" || AnyHexValue(rest[0]).None?)
    requires prefix == "" && digits == "0" && |rest| > 1 && rest[0] in {'x', 'X'} ==> AnyHexValue(rest[1]).None?
    ensures var t := sign + (prefix + (digits + rest));
            t != "" && !IsSpace(t[0]) && (t[0] == '-' <==> sign == "-") &&
            AfterPrefix(AfterSign(t)) == digits + rest
  {
    var u := prefix + (digits + rest);
    var t := sign + u;
    assert (digits + rest)[0] == digits[0] && AnyHexValue(digits[0]).Some?;
    assert u[0] == if prefix == "" then digits[0] else '0';
    assert t[0] == if sign == "" then u[0] else sign[0];
    assert AfterSign(t) == u by {
      assert sign == "" ==> t == u;
      assert sign != "" ==> t[1..] == u;
    }
    if prefix == "" {
      assert u == digits + rest;
      if |digits| > 1 {
        assert u[1] == digits[1] && AnyHexValue(digits[1]).Some?;
      }
    } else {
      assert u[1] == prefix[1] && u[2] == digits[0] && u[2..] == digits + rest;
    }
  }

  /** White space, an optional sign, an optional "0x", hex digits of either case and anything
      that does not go on with one are read as the number, exactly when it fits an int. */
  lemma StoiExactly(space: string, sign: string, prefix: string, digits: string, rest: string)
    requires forall i :: 0 <= i < |space| ==> IsSpace(space[i])
    requires sign == "" || sign == "+" || sign == "-"
    requires prefix == "" || prefix == "0x" || prefix == "0X"
    requires AllHex(digits) && digits != "" && (rest == "" || AnyHexValue(rest[0]).None?)
    requires prefix == "" && digits == "0" && |rest| > 1 && rest[0] in {'x', 'X'} ==> AnyHexValue(rest[1]).None?
    ensures var v: int := if sign == "-" then -(HexNumber(digits) as int) else HexNumber(digits);
            StoiHex(space + (sign + (prefix + (digits + rest)))) == if -INT_MAX - 1 <= v <= INT_MAX then Some(v) else None
  {
    var t := sign + (prefix + (digits + rest));
    DigitsAfterSign(sign, prefix, digits, rest);
    SpaceThenRest(space, t);
    assert "" + digits == digits && HexNumber("") == 0;
    HexPrefixCounts("", digits, rest);
    StoiAfterSpace(space + t, t, digits + rest);
  }

  lemma StoiAfterSpace(s: string, t: string, u: string)
    requires t != "" && DropSpace(s) == t && AfterPrefix(AfterSign(t)) == u && u != "" && AnyHexValue(u[0]).Some?
    ensures var v: int := if t[0] == '-' then -(HexPrefix(u, 0) as int) else HexPrefix(u, 0);
            StoiHex(s) == if -INT_MAX - 1 <= v <= INT_MAX then Some(v) else None
  {
  }

  /** Anything else makes the source throw. */
  lemma StoiOfText(space: string, sign: string, text: string)
    requires forall i :: 0 <= i < |space| ==> IsSpace(space[i])
    requires sign == "" || sign == "+" || sign == "-"
    requires text == "" ||
             (AnyHexValue(text[0]).None? && (sign == "" ==> !IsSpace(text[0]) && text[0] != '+' && text[0] != '-'))
    ensures StoiHex(space + (sign + text)) == None
  {
    var t := sign + text;
    assert t != "" ==> t[0] == if sign == "" then text[0] else sign[0];
    SpaceThenRest(space, t);
    assert sign == "" ==> t == text;
    assert sign != "" ==> t[1..] == text;
    assert text != "" ==> text[0] != '0';
  }
}
