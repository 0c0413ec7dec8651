/** The text protocol of src/adb_protocol.cpp: length-prefixed requests, and the reader of
    replies, which handles each chunk the socket delivers on its own. A chunk is its bytes;
    the byte just past its end is taken to be NUL. */
module Protocol {
  import opened Options
  import opened Text

  const OKAY: string := "OKAY"
  const FAIL: string := "FAIL"
  const NUL: char := 0 as char

  // ---------------------------------------------------------------------------
  // Requests
  // ---------------------------------------------------------------------------

  function HexDigit(d: nat): char
    requires d < 16
  {
    if d < 10 then (d + '0' as int) as char else (d - 10 + 'a' as int) as char
  }

  function HexValue(c: char): Option<nat> {
    if '0' <= c <= '9' then Some(c as int - '0' as int)
    else if 'a' <= c <= 'f' then Some(c as int - 'a' as int + 10)
    else None
  }

  /** The format "%0<width>x". */
  function Hex(n: nat, width: nat): string
    decreases n, width
  {
    if n < 16 && width <= 1 then [HexDigit(n)]
    else Hex(n / 16, if width == 0 then 0 else width - 1) + [HexDigit(n % 16)]
  }

  /** A request: four hex digits of length, then the command. */
  function Frame(cmd: string): string { Hex(|cmd|, 4) + cmd }

  function Frames(cmds: seq<string>): string {
    if cmds == [] then "" else Frame(cmds[0]) + Frames(cmds[1..])
  }

  function ReadHex(s: string): Option<nat> {
    if s == "" then Some(0)
    else
      match (ReadHex(s[..|s| - 1]), HexValue(s[|s| - 1]))
      case (Some(n), Some(d)) => Some(16 * n + d)
      case _ => None
  }

  /** A reader of length-prefixed commands that knows nothing of how they were written. */
  function ReadFrames(s: string): Option<seq<string>>
    decreases |s|
  {
    if s == "" then Some([])
    else if |s| < 4 then None
    else
      match ReadHex(s[..4])
      case None => None
      case Some(n) =>
        if |s| < 4 + n then None
        else
          match ReadFrames(s[4 + n..])
          case None => None
          case Some(rest) => Some([s[4..4 + n]] + rest)
  }

  lemma {:induction false} HexReads(n: nat, width: nat)
    ensures ReadHex(Hex(n, width)) == Some(n)
    decreases n, width
  {
    var s := Hex(n, width);
    if n < 16 && width <= 1 {
      assert s[..0] == "" && ReadHex("") == Some(0);
    } else {
      HexReads(n / 16, if width == 0 then 0 else width - 1);
      assert s[..|s| - 1] == Hex(n / 16, if width == 0 then 0 else width - 1);
    }
  }

  /** "%04x" writes four digits exactly for numbers below 65536, and more above. */
  lemma HexWidth(n: nat)
    ensures n < 0x1_0000 ==> |Hex(n, 4)| == 4
    ensures n >= 0x1_0000 ==> |Hex(n, 4)| > 4
  {
    var n1 := n / 16;
    var n2 := n1 / 16;
    var n3 := n2 / 16;
    assert |Hex(n, 4)| == |Hex(n1, 3)| + 1;
    assert |Hex(n1, 3)| == |Hex(n2, 2)| + 1;
    assert |Hex(n2, 2)| == |Hex(n3, 1)| + 1;
    assert n3 < 16 <==> n < 0x1_0000;
    HexNotEmpty(n3 / 16, 0);
  }

  lemma {:induction false} HexNotEmpty(n: nat, width: nat)
    ensures |Hex(n, width)| >= 1
  {
  }

  /** Four hex digits never read as more than 65535. */
  lemma ReadHexBound(s: string)
    requires |s| == 4 && ReadHex(s).Some?
    ensures ReadHex(s).value < 0x1_0000
  {
    assert s[..3][..2] == s[..2] && s[..2][..1] == s[..1] && s[..1][..0] == "";
    assert ReadHex(s[..1]).Some? && ReadHex(s[..1]).value < 16;
    assert ReadHex(s[..2]).Some? && ReadHex(s[..2]).value < 256;
    assert ReadHex(s[..3]).Some? && ReadHex(s[..3]).value < 4096;
  }

  /** A length-prefixed reader recovers exactly the commands that were framed if and only if
      every one of them fits the four-digit length. */
  lemma {:induction false} FramesRoundTrip(cmds: seq<string>)
    ensures ReadFrames(Frames(cmds)) == Some(cmds) <==> forall i :: 0 <= i < |cmds| ==> |cmds[i]| <= 0xFFFF
  {
    if cmds != [] {
      var cmd, rest := cmds[0], Frames(cmds[1..]);
      var s := Frame(cmd) + rest;
      HexWidth(|cmd|);
      HexReads(|cmd|, 4);
      if |cmd| <= 0xFFFF {
        FramesRoundTrip(cmds[1..]);
        assert s[..4] == Hex(|cmd|, 4) && s[4..4 + |cmd|] == cmd && s[4 + |cmd|..] == rest;
        assert cmds == [cmd] + cmds[1..];
        if forall i :: 0 <= i < |cmds| - 1 ==> |cmds[1..][i]| <= 0xFFFF {
          forall i | 0 <= i < |cmds| ensures |cmds[i]| <= 0xFFFF { assert i > 0 ==> cmds[i] == cmds[1..][i - 1]; }
        }
        if ReadFrames(rest).Some? {
          assert ([cmd] + ReadFrames(rest).value)[1..] == ReadFrames(rest).value;
        }
      } else if ReadFrames(s) == Some(cmds) {
        ReadHexBound(s[..4]);
      }
    }
  }

  // ---------------------------------------------------------------------------
  // Replies
  // ---------------------------------------------------------------------------

  /** The C string that starts at the chunk's first byte: it ends at the first NUL. */
  function CString(s: string): string {
    if s == "" || s[0] == NUL then "" else [s[0]] + CString(s[1..])
  }

  /** strncmp of the chunk with a four-letter word, for a chunk that may be shorter. */
  predicate StartsWith(chunk: string, word: string) {
    |word| <= |chunk| && chunk[..|word|] == word
  }

  /** What a command has gathered: its status and its two output strings. */
  datatype Reply = Reply(status: int, result: string, error: string)

  /** One chunk of a reply. None where the source reads past the byte after the chunk. */
  function ReadChunk(chunk: string, r: Reply): Option<Reply> {
    if |chunk| > 4 then
      if StartsWith(chunk, OKAY) then
        if |chunk| < 8 then None else Some(Reply(0, r.result + CString(chunk[8..]), r.error))
      else if StartsWith(chunk, FAIL) then
        if |chunk| < 8 then None else Some(Reply(-1, r.result, r.error + CString(chunk[8..])))
      else Some(Reply(0, r.result + CString(chunk[4..]), r.error))
    else if |chunk| == 4 then
      Some(r.(status := if chunk == FAIL then -1 else 0))
    else
      Some(Reply(0, r.result + CString(chunk), r.error))
  }

  method ReadProtocolString(buf: string, result: string, error: string)
    returns (r: Option<Reply>)
    ensures forall s :: r == ReadChunk(buf, Reply(s, result, error))
  {
    var status, cursor := 0, 0;
    var res, err := result, error;
    if |buf| > 4 {
      if buf[..4] == OKAY {
        cursor := cursor + 4;
        cursor := cursor + 4;
        status := 0;
        if cursor > |buf| { return None; }
        res := res + CString(buf[cursor..]);
      } else if buf[..4] == FAIL {
        cursor := cursor + 4;
        cursor := cursor + 4;
        status := -1;
        if cursor > |buf| { return None; }
        err := err + CString(buf[cursor..]);
      } else {
        cursor := cursor + 4;
        res := res + CString(buf[cursor..]);
      }
    } else if |buf| == 4 {
      if buf[..4] == OKAY {
        status := 0;
      } else if buf[..4] == FAIL {
        status := -1;
      } else {
        status := 0;
      }
    } else {
      status := 0;
      res := res + CString(buf);
    }
    assert |buf| == 4 ==> buf[..4] == buf;
    r := Some(Reply(status, res, err));
  }

  /** The chunks of a reply, one after another: the callback keeps the last status. */
  function ReadAll(chunks: seq<string>, r: Reply): Option<Reply>
    decreases |chunks|
  {
    if chunks == [] then Some(r)
    else
      match ReadChunk(chunks[0], r)
      case None => None
      case Some(next) => ReadAll(chunks[1..], next)
  }

  ghost predicate NoneEmpty(chunks: seq<string>) {
    forall i :: 0 <= i < |chunks| ==> chunks[i] != ""
  }

  ghost predicate AllShort(chunks: seq<string>) {
    forall i :: 0 <= i < |chunks| ==> |chunks[i]| < 4
  }

  predicate LowerHex(s: string) {
    forall i :: 0 <= i < |s| ==> HexValue(s[i]).Some?
  }

  lemma {:induction false} NulFree(s: string)
    requires NUL !in s
    ensures CString(s) == s
  {
    if s != "" {
      NulFree(s[1..]);
      assert [s[0]] + s[1..] == s;
    }
  }

  lemma {:induction false} CStringShorter(s: string)
    ensures |CString(s)| <= |s|
  {
    if s != "" && s[0] != NUL {
      CStringShorter(s[1..]);
    }
  }

  /** No chunk adds more bytes than it has, and one of four bytes or more always loses some. */
  lemma ChunkGain(chunk: string, r: Reply)
    requires ReadChunk(chunk, r).Some?
    ensures var n := ReadChunk(chunk, r).value;
            |r.result| <= |n.result| <= |r.result| + |chunk| &&
            (|chunk| >= 4 ==> |n.result| < |r.result| + |chunk|)
  {
    CStringShorter(chunk);
    if |chunk| >= 4 { CStringShorter(chunk[4..]); }
    if |chunk| >= 8 { CStringShorter(chunk[8..]); }
  }

  lemma {:induction false} ReadAllGain(chunks: seq<string>, r: Reply)
    requires ReadAll(chunks, r).Some?
    ensures var n := ReadAll(chunks, r).value;
            |r.result| <= |n.result| <= |r.result| + |Concat(chunks)| &&
            (!AllShort(chunks) ==> |n.result| < |r.result| + |Concat(chunks)|)
    decreases |chunks|
  {
    if chunks != [] {
      ChunkGain(chunks[0], r);
      ReadAllGain(chunks[1..], ReadChunk(chunks[0], r).value);
      if !AllShort(chunks) && AllShort(chunks[1..]) {
        forall i | 1 <= i < |chunks| ensures |chunks[i]| < 4 { assert chunks[i] == chunks[1..][i - 1]; }
      }
    }
  }

  lemma {:induction false} ShortChunks(chunks: seq<string>, r: Reply)
    requires AllShort(chunks) && NUL !in Concat(chunks)
    ensures ReadAll(chunks, r) ==
            Some(Reply(if chunks == [] then r.status else 0, r.result + Concat(chunks), r.error))
    decreases |chunks|
  {
    if chunks == [] {
      assert r.result + "" == r.result;
    } else {
      var c, rest := chunks[0], Concat(chunks[1..]);
      forall x | x == NUL ensures x !in c && x !in rest { assert Concat(chunks) == c + rest; }
      NulFree(c);
      forall i | 0 <= i < |chunks| - 1 ensures |chunks[1..][i]| < 4 { assert chunks[1..][i] == chunks[i + 1]; }
      ShortChunks(chunks[1..], Reply(0, r.result + c, r.error));
      assert r.result + c + rest == r.result + (c + rest);
    }
  }

  /** Once the header has been dealt with, a NUL-free payload arrives whole, with status 0,
      exactly when all further chunks are shorter than four bytes. */
  lemma TailExactly(chunks: seq<string>, r: Reply)
    requires NUL !in Concat(chunks)
    ensures ReadAll(chunks, r) == Some(Reply(if chunks == [] then r.status else 0, r.result + Concat(chunks), r.error))
            <==> AllShort(chunks)
  {
    if AllShort(chunks) {
      ShortChunks(chunks, r);
    } else if ReadAll(chunks, r).Some? {
      ReadAllGain(chunks, r);
    }
  }

  /** A successful reply. */
  function OkayReply(len: string, payload: string): string { OKAY + len + payload }

  /** A successful reply cut into any number of chunks, the first holding the header (or the
      first the status word and the second the length): it is read exactly, with status 0,
      if and only if all chunks after the header's are shorter than four bytes. */
  lemma SegmentationAfterHeader(chunks: seq<string>, len: string, payload: string, r: Reply)
    requires |len| == 4 && LowerHex(len) && NUL !in payload
    requires |chunks| >= 1 && Concat(chunks) == OkayReply(len, payload)
    requires |chunks[0]| >= 8 || (|chunks[0]| == 4 && |chunks| >= 2 && |chunks[1]| >= 4)
    ensures ReadAll(chunks, r) == Some(Reply(0, r.result + payload, r.error)) <==>
            AllShort(chunks[if |chunks[0]| == 4 then 2 else 1..])
  {
    if |chunks[0]| >= 8 {
      HeaderInFirst(chunks, len, payload, r);
    } else {
      HeaderInTwo(chunks, len, payload, r);
    }
  }

  lemma HeaderInFirst(chunks: seq<string>, len: string, payload: string, r: Reply)
    requires |len| == 4 && NUL !in payload
    requires |chunks| >= 1 && Concat(chunks) == OkayReply(len, payload) && |chunks[0]| >= 8
    ensures ReadAll(chunks, r) == Some(Reply(0, r.result + payload, r.error)) <==> AllShort(chunks[1..])
  {
    var s, c, rest := OkayReply(len, payload), chunks[0], Concat(chunks[1..]);
    assert s == c + rest && s[..4] == OKAY && s[8..] == payload;
    assert c[..4] == s[..4] && payload == c[8..] + rest;
    NulFree(c[8..]);
    TailExactly(chunks[1..], Reply(0, r.result + c[8..], r.error));
    assert r.result + c[8..] + rest == r.result + payload;
  }

  lemma HeaderInTwo(chunks: seq<string>, len: string, payload: string, r: Reply)
    requires |len| == 4 && LowerHex(len) && NUL !in payload
    requires |chunks| >= 2 && Concat(chunks) == OkayReply(len, payload)
    requires |chunks[0]| == 4 && |chunks[1]| >= 4
    ensures ReadAll(chunks, r) == Some(Reply(0, r.result + payload, r.error)) <==> AllShort(chunks[2..])
  {
    var c1, rest := chunks[1], Concat(chunks[2..]);
    assert chunks[1..][1..] == chunks[2..];
    HeaderPieces(chunks[0], c1, rest, len, payload);
    LengthChunk(len, c1, r.(status := 0));
    NulFree(c1[4..]);
    TailExactly(chunks[2..], Reply(0, r.result + c1[4..], r.error));
    assert r.result + c1[4..] + rest == r.result + payload;
  }

  lemma HeaderPieces(c: string, c1: string, rest: string, len: string, payload: string)
    requires |len| == 4 && |c| == 4 && |c1| >= 4
    requires c + (c1 + rest) == OkayReply(len, payload)
    ensures c == OKAY && c1[..4] == len && payload == c1[4..] + rest
  {
    var s := OkayReply(len, payload);
    assert s[..4] == OKAY && s[4..] == len + payload;
    assert s[..4] == c && s[4..] == c1 + rest;
    assert (c1 + rest)[..4] == c1[..4] && (len + payload)[..4] == len;
    assert (c1 + rest)[4..] == c1[4..] + rest && (len + payload)[4..] == payload;
  }

  /** A chunk that starts with the length: its first four bytes are dropped. */
  lemma LengthChunk(len: string, chunk: string, r: Reply)
    requires |len| == 4 && LowerHex(len) && |chunk| >= 4 && chunk[..4] == len
    ensures ReadChunk(chunk, r) == Some(Reply(0, r.result + CString(chunk[4..]), r.error))
  {
    LengthIsNoStatus(len, chunk);
    if |chunk| == 4 {
      assert chunk[..4] == chunk && chunk[4..] == "" && r.result + "" == r.result;
    }
  }

  lemma LengthIsNoStatus(len: string, chunk: string)
    requires |len| == 4 && LowerHex(len) && |chunk| >= 4 && chunk[..4] == len
    ensures !StartsWith(chunk, OKAY) && !StartsWith(chunk, FAIL)
  {
    assert chunk[..4][0] == len[0];
    assert HexValue(len[0]).Some?;
    assert OKAY[0] == 'O' && FAIL[0] == 'F';
  }

  /** Exact segmentation: a successful reply cut in two is read exactly if and only if the cut
      is right after the status word, or after the header with fewer than four bytes left. */
  lemma CutInTwo(len: string, payload: string, k: nat, r: Reply)
    requires |len| == 4 && LowerHex(len) && NUL !in payload
    requires 0 < k < 8 + |payload|
    ensures var s := OkayReply(len, payload);
            ReadAll([s[..k], s[k..]], r) == Some(Reply(0, r.result + payload, r.error)) <==>
            k == 4 || (k >= 8 && |s| - k < 4)
  {
    var s := OkayReply(len, payload);
    var chunks := [s[..k], s[k..]];
    assert Concat(chunks) == s by {
      assert chunks[1..] == [s[k..]];
      ConcatOne(s[k..]);
      assert s[..k] + s[k..] == s;
    }
    if k >= 8 || k == 4 {
      SegmentationAfterHeader(chunks, len, payload, r);
      assert k == 4 ==> chunks[2..] == [];
      assert k >= 8 ==> chunks[1..] == [s[k..]];
    } else if k < 4 {
      CutInStatusWord(len, payload, k, r);
    } else {
      assert s[..k][..4] == s[..4] == OKAY;
    }
  }

  /** Cut inside the status word: four bytes too many are kept. */
  lemma CutInStatusWord(len: string, payload: string, k: nat, r: Reply)
    requires |len| == 4 && LowerHex(len) && NUL !in payload && 0 < k < 4
    ensures var s := OkayReply(len, payload);
            ReadAll([s[..k], s[k..]], r) == Some(Reply(0, r.result + s[..k] + s[k + 4..], r.error))
  {
    var s := OkayReply(len, payload);
    var a, b := s[..k], s[k..];
    assert s[..4] == OKAY && s[4..8] == len && s[8..] == payload;
    assert forall i :: 0 <= i < |s| ==> s[i] != NUL by {
      forall i | 0 <= i < |s| ensures s[i] != NUL {
        if 4 <= i < 8 { assert s[i] == len[i - 4]; }
        if i >= 8 { assert s[i] == payload[i - 8]; }
      }
    }
    NulFree(a);
    assert b[4..] == s[k + 4..];
    NulFree(s[k + 4..]);
    assert b[0] == s[k] && OKAY == ['O', 'K', 'A', 'Y'] && FAIL[0] == 'F';
    assert b[..4][0] == b[0];
    assert b[..4] != OKAY by { assert b[..4][0] != 'O'; }
    assert b[..4] != FAIL;
    var r1 := Reply(0, r.result + a, r.error);
    assert ReadChunk(a, r) == Some(r1);
    assert ReadAll([b], r1) == ReadChunk(b, r1) by { assert [b][1..] == []; match ReadChunk(b, r1) case None => case Some(x) => assert ReadAll([], x) == Some(x); }
    assert [a, b][1..] == [b];
  }

  // ---------------------------------------------------------------------------
  // What any chunks leave behind
  // ---------------------------------------------------------------------------

  /** A C string is the text up to its first NUL. */
  lemma {:induction false} CStringExactly(s: string, c: string)
    ensures c == CString(s) <==>
            NUL !in c && |c| <= |s| && s[..|c|] == c && (|c| < |s| ==> s[|c|] == NUL)
  {
    if s == "" {
      return;
    }
    if c != "" && c[0] == s[0] && s[0] != NUL {
      CStringExactly(s[1..], c[1..]);
      assert c == [c[0]] + c[1..];
      assert |c| <= |s| ==> s[..|c|] == [s[0]] + s[1..][..|c| - 1];
    } else if c != "" && |c| <= |s| {
      assert s[..|c|][0] == s[0];
    }
  }

  predicate StatusWordAnd(chunk: string, word: string) { |chunk| > 4 && StartsWith(chunk, word) }

  /** The chunks that make the source read past their end. */
  predicate TooShort(chunk: string) {
    (StatusWordAnd(chunk, OKAY) || StatusWordAnd(chunk, FAIL)) && |chunk| < 8
  }

  /** The bytes of a chunk that are dropped: a status word and a length, or whatever comes in
      the place of a length, or nothing. */
  function Dropped(chunk: string): nat {
    if StatusWordAnd(chunk, OKAY) || StatusWordAnd(chunk, FAIL) then 8 else if |chunk| >= 4 then 4 else 0
  }

  /** What a chunk leaves, and where it goes: to the error, or to the result. */
  function Rest(chunk: string): string {
    if Dropped(chunk) <= |chunk| then CString(chunk[Dropped(chunk)..]) else ""
  }

  function Errors(chunks: seq<string>): seq<string> {
    seq(|chunks|, i requires 0 <= i < |chunks| => if StatusWordAnd(chunks[i], FAIL) then Rest(chunks[i]) else "")
  }

  function Results(chunks: seq<string>): seq<string> {
    seq(|chunks|, i requires 0 <= i < |chunks| => if StatusWordAnd(chunks[i], FAIL) then "" else Rest(chunks[i]))
  }

  lemma OneChunkLeaves(c: string, r: Reply)
    ensures ReadChunk(c, r).None? <==> TooShort(c)
    ensures ReadChunk(c, r).Some? ==>
              var n := ReadChunk(c, r).value;
              n.result == r.result + Results([c])[0] && n.error == r.error + Errors([c])[0]
  {
    if |c| == 4 {
      assert c[4..] == "" && CString("") == "";
    } else if |c| < 4 {
      assert c[0..] == c;
    }
  }

  /** Over any chunks of anything: the reading is undefined exactly when some chunk is a status
      word with one to three bytes after it; otherwise the result is what was there and then,
      chunk by chunk, the text after the bytes dropped, and in the same way the error, which
      gets what comes after FAIL. */
  lemma {:induction false} WhatChunksLeave(chunks: seq<string>, r: Reply)
    ensures ReadAll(chunks, r).None? <==> exists i :: 0 <= i < |chunks| && TooShort(chunks[i])
    ensures ReadAll(chunks, r).Some? ==>
              var n := ReadAll(chunks, r).value;
              n.result == r.result + Concat(Results(chunks)) && n.error == r.error + Concat(Errors(chunks))
    decreases |chunks|
  {
    if chunks == [] {
      assert r.result + "" == r.result && r.error + "" == r.error;
    } else {
      OneChunkLeaves(chunks[0], r);
      assert Results(chunks)[1..] == Results(chunks[1..]) && Errors(chunks)[1..] == Errors(chunks[1..]);
      if ReadChunk(chunks[0], r).Some? {
        var next := ReadChunk(chunks[0], r).value;
        WhatChunksLeave(chunks[1..], next);
        FirstThenOthers(r.result, Results(chunks));
        FirstThenOthers(r.error, Errors(chunks));
        LaterTooShort(chunks);
      }
    }
  }

  lemma FirstThenOthers(s: string, parts: seq<string>)
    requires parts != []
    ensures s + Concat(parts) == s + parts[0] + Concat(parts[1..])
  {
  }

  lemma LaterTooShort(chunks: seq<string>)
    requires chunks != [] && !TooShort(chunks[0])
    ensures (exists i :: 0 <= i < |chunks| && TooShort(chunks[i])) <==>
            exists i :: 0 <= i < |chunks| - 1 && TooShort(chunks[1..][i])
  {
    if i :| 0 <= i < |chunks| && TooShort(chunks[i]) {
      assert chunks[1..][i - 1] == chunks[i];
    }
  }

  ghost predicate PlainPayload(chunks: seq<string>) {
    forall i :: 0 <= i < |chunks| ==> NUL !in chunks[i] && !StartsWith(chunks[i], OKAY) && !StartsWith(chunks[i], FAIL)
  }

  /** Each chunk without its first four bytes, when it has that many. */
  function Beheaded(chunks: seq<string>): seq<string> {
    seq(|chunks|, i requires 0 <= i < |chunks| => if |chunks[i]| >= 4 then chunks[i][4..] else chunks[i])
  }

  /** Payload that follows the header in chunks of its own loses exactly the first four bytes
      of every chunk that has four or more. */
  lemma {:induction false} PayloadInChunks(chunks: seq<string>, r: Reply)
    requires PlainPayload(chunks)
    ensures ReadAll(chunks, r) ==
            Some(Reply(if chunks == [] then r.status else 0, r.result + Concat(Beheaded(chunks)), r.error))
    decreases |chunks|
  {
    if chunks == [] {
      assert r.result + "" == r.result;
    } else {
      var c := chunks[0];
      NulFree(c);
      if |c| >= 4 {
        NulFree(c[4..]);
        assert |c| == 4 ==> c[..4] == c && c[4..] == "" && r.result + "" == r.result;
      }
      var first := Beheaded(chunks)[0];
      assert ReadChunk(c, r) == Some(Reply(0, r.result + first, r.error));
      assert PlainPayload(chunks[1..]) by {
        forall i | 0 <= i < |chunks| - 1 ensures chunks[1..][i] == chunks[i + 1] {}
      }
      PayloadInChunks(chunks[1..], Reply(0, r.result + first, r.error));
      assert Beheaded(chunks)[1..] == Beheaded(chunks[1..]);
      FirstThenOthers(r.result, Beheaded(chunks));
    }
  }

  /** A successful reply whose header and first `k - 8` bytes of payload come in one chunk, and
      the rest in others: exactly what is left of it. */
  lemma ReplyInChunks(len: string, head: string, chunks: seq<string>, r: Reply)
    requires |len| == 4 && NUL !in head && PlainPayload(chunks)
    ensures ReadAll([OkayReply(len, head)] + chunks, r) ==
            Some(Reply(0, r.result + head + Concat(Beheaded(chunks)), r.error))
  {
    var c := OkayReply(len, head);
    assert c[..4] == OKAY && c[8..] == head;
    NulFree(head);
    assert ([c] + chunks)[1..] == chunks;
    PayloadInChunks(chunks, Reply(0, r.result + head, r.error));
  }

  /** In particular for one cut in the payload with four bytes or more after it. */
  lemma CutInPayload(len: string, payload: string, k: nat, r: Reply)
    requires |len| == 4 && NUL !in payload && 8 <= k && k + 4 <= 8 + |payload|
    requires !StartsWith(payload[k - 8..], OKAY) && !StartsWith(payload[k - 8..], FAIL)
    ensures var s := OkayReply(len, payload);
            ReadAll([s[..k], s[k..]], r) == Some(Reply(0, r.result + payload[..k - 8] + payload[k - 4..], r.error))
  {
    var s, head, tail := OkayReply(len, payload), payload[..k - 8], payload[k - 8..];
    assert s[..k] == OkayReply(len, head) && s[k..] == tail;
    ReplyInChunks(len, head, [tail], r);
    assert Beheaded([tail]) == [payload[k - 4..]];
    ConcatOne(payload[k - 4..]);
    assert [s[..k]] + [tail] == [s[..k], s[k..]];
  }

  // ---------------------------------------------------------------------------
  // Failures
  // ---------------------------------------------------------------------------

  function FailReply(len: string, message: string): string { FAIL + len + message }

  lemma ErrorGain(chunk: string, r: Reply)
    requires ReadChunk(chunk, r).Some?
    ensures var n := ReadChunk(chunk, r).value;
            |r.error| <= |n.error| && (n.error == r.error || |n.error| + 8 <= |r.error| + |chunk|)
  {
    if |chunk| >= 8 { CStringShorter(chunk[8..]); }
  }

  /** The error text grows by eight bytes less than the chunks hold, at best; by exactly that
      only when one chunk holds everything. */
  lemma {:induction false} ErrorGainAll(chunks: seq<string>, r: Reply)
    requires NoneEmpty(chunks) && ReadAll(chunks, r).Some?
    ensures var n, total := ReadAll(chunks, r).value, |Concat(chunks)|;
            |r.error| <= |n.error| &&
            (n.error == r.error || |n.error| + 8 <= |r.error| + total) &&
            (|chunks| > 1 && n.error != r.error ==> |n.error| + 8 < |r.error| + total)
    decreases |chunks|
  {
    if chunks != [] {
      ErrorGain(chunks[0], r);
      var r1 := ReadChunk(chunks[0], r).value;
      assert NoneEmpty(chunks[1..]) by {
        forall i | 0 <= i < |chunks| - 1 ensures chunks[1..][i] != "" { assert chunks[1..][i] == chunks[i + 1]; }
      }
      ErrorGainAll(chunks[1..], r1);
      if |chunks| > 1 {
        assert chunks[1..][0] != "";
        assert |Concat(chunks[1..])| >= 1;
      }
    }
  }

  /** The status that comes back is that of the last chunk. */
  lemma {:induction false} LastChunkDecides(chunks: seq<string>, r: Reply)
    requires chunks != [] && ReadAll(chunks, r).Some?
    ensures ReadAll(chunks, r).value.status == if StartsWith(chunks[|chunks| - 1], FAIL) then -1 else 0
    decreases |chunks|
  {
    var c := chunks[0];
    if |chunks| == 1 {
      assert |c| == 4 ==> c[..4] == c;
    } else {
      LastChunkDecides(chunks[1..], ReadChunk(c, r).value);
    }
  }

  /** A failure is reported, with its message as the error text and status -1, if and only if
      the reply arrives in one piece. */
  lemma FailureReported(chunks: seq<string>, len: string, message: string, r: Reply)
    requires |len| == 4 && LowerHex(len) && NUL !in message
    requires NoneEmpty(chunks) && Concat(chunks) == FailReply(len, message)
    ensures ReadAll(chunks, r) == Some(Reply(-1, r.result, r.error + message)) <==> |chunks| == 1
  {
    var s := FailReply(len, message);
    assert s[..4] == FAIL && s[8..] == message;
    if |chunks| == 1 {
      assert chunks == [chunks[0]];
      ConcatOne(chunks[0]);
      assert chunks[1..] == [];
      NulFree(message);
      assert ReadAll([], Reply(-1, r.result, r.error + message)).Some?;
    } else if |chunks| > 1 && ReadAll(chunks, r) == Some(Reply(-1, r.result, r.error + message)) {
      ErrorGainAll(chunks, r);
      assert message == "";
      LastChunkDecides(chunks, r);
      LastChunkIsSuffix(chunks);
      assert s == FAIL + len;
      SuffixIsNoFailure(len, |s| - |chunks[|chunks| - 1]|);
    }
  }

  lemma SuffixIsNoFailure(len: string, at: nat)
    requires |len| == 4 && LowerHex(len) && 0 < at <= 8
    ensures !StartsWith((FAIL + len)[at..], FAIL)
  {
    var s := FAIL + len;
    if at <= 4 {
      assert FAIL == ['F', 'A', 'I', 'L'];
      assert s[at] == if at < 4 then FAIL[at] else len[0];
      assert HexValue(len[0]).Some?;
      assert s[at..][..4][0] == s[at] != 'F';
    }
  }

  lemma {:induction false} LastChunkIsSuffix(chunks: seq<string>)
    requires |chunks| > 1 && NoneEmpty(chunks)
    ensures var c, s := chunks[|chunks| - 1], Concat(chunks);
            |c| < |s| && s[|s| - |c|..] == c
  {
    var rest := Concat(chunks[1..]);
    if |chunks| == 2 {
      assert chunks[1..] == [chunks[1]];
      ConcatOne(chunks[1]);
    } else {
      assert NoneEmpty(chunks[1..]) by {
        forall i | 0 <= i < |chunks| - 1 ensures chunks[1..][i] != "" { assert chunks[1..][i] == chunks[i + 1]; }
      }
      LastChunkIsSuffix(chunks[1..]);
    }
    var c, s := chunks[|chunks| - 1], Concat(chunks);
    assert s == chunks[0] + rest;
    assert s[|s| - |c|..] == rest[|rest| - |c|..];
  }

  /** A failure cut right after its status word ends as a success whose result is the message. */
  lemma SplitFailureReadsAsSuccess(len: string, message: string, r: Reply)
    requires |len| == 4 && LowerHex(len) && NUL !in message
    ensures ReadAll([FAIL, len + message], r) == Some(Reply(0, r.result + message, r.error))
  {
    var c := len + message;
    LengthChunk(len, c, r.(status := -1));
    assert c[4..] == message;
    NulFree(message);
    assert [FAIL, c][1..] == [c] && [c][1..] == [];
    assert ReadAll([c], r.(status := -1)) == ReadAll([], Reply(0, r.result + message, r.error));
  }
}
