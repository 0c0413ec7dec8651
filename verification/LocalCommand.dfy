/** Transport commands of src/local_command.cpp: the command is switched to a device, then a
    service command is written whenever the server says OKAY. */
module LocalCommands {
  import opened Options
  import opened Text
  import opened Protocol

  /** What a command has written to its channel, and what its callbacks have stored. */
  datatype Session = Session(written: string, status: int, shellData: string, data: string)

  /** respond_transport_command: the status it returns. */
  function Respond(s: Session, cmd: string, chunk: string): Session {
    if chunk == OKAY then s.(written := s.written + Frame(cmd), status := 0)
    else if chunk == FAIL then s.(status := -1)
    else s.(status := 0)
  }

  /** The message callback of `shell`. */
  function ShellStep(s: Session, cmd: string, chunk: string): Session {
    var n := Respond(s, cmd, chunk);
    if n.status != -1 && !StartsWith(chunk, OKAY) then n.(shellData := CString(chunk)) else n
  }

  /** The message callback of `screencap`. Its comparison with FAIL is inverted in the source:
      a bare FAIL changes nothing, and any other unknown word of four bytes means failure. */
  function ScreencapStep(s: Session, cmd: string, chunk: string): Session {
    if |chunk| == 4 then
      if chunk == OKAY then s.(written := s.written + Frame(cmd), status := 0)
      else if chunk != FAIL then s.(status := -1)
      else s
    else s.(data := s.data + chunk)
  }

  function ShellAll(s: Session, cmd: string, chunks: seq<string>): Session
    decreases |chunks|
  {
    if chunks == [] then s else ShellAll(ShellStep(s, cmd, chunks[0]), cmd, chunks[1..])
  }

  function ScreencapAll(s: Session, cmd: string, chunks: seq<string>): Session
    decreases |chunks|
  {
    if chunks == [] then s else ScreencapAll(ScreencapStep(s, cmd, chunks[0]), cmd, chunks[1..])
  }

  class LocalCommand {
    var command: string
    var shellData: string
    // The channel's output, and the caller's variables that the callbacks refer to.
    var written: string
    var status: int
    var data: string
    var wakeUps: nat

    function State(): Session
      reads this
    {
      Session(written, status, shellData, data)
    }

    /** The connection callback: writes the request when connected, otherwise wakes the waiter. */
    method OnConnection(connected: bool)
      modifies this`written, this`wakeUps
      ensures written == if connected then old(written) + Frame(command) else old(written)
      ensures wakeUps == if connected then old(wakeUps) else old(wakeUps) + 1
    {
      if connected {
        var str := Hex(|command|, 4);
        str := str + command;
        written := written + str;
      } else {
        wakeUps := wakeUps + 1;
      }
    }

    method RespondTransportCommand(buf: string, cmd: string) returns (st: int)
      modifies this`written
      ensures State().(status := st) == Respond(old(State()), cmd, buf)
    {
      st := 0;
      if |buf| == 4 {
        assert buf[..4] == buf;
        if buf[..4] == OKAY {
          var str := Hex(|cmd|, 4);
          str := str + cmd;
          written := written + str;
          st := 0;
        } else if buf[..4] == FAIL {
          st := -1;
        } else {
          st := 0;
        }
      }
    }

    method OnShellMessage(buf: string, cmd: string)
      modifies this`written, this`status, this`shellData
      ensures State() == ShellStep(old(State()), cmd, buf)
    {
      status := RespondTransportCommand(buf, cmd);
      if status != -1 && !StartsWith(buf, OKAY) {
        shellData := CString(buf);
      }
    }

    method OnScreencapMessage(buf: string, cmd: string)
      modifies this`written, this`status, this`data
      ensures State() == ScreencapStep(old(State()), cmd, buf)
    {
      if |buf| == 4 {
        if buf == OKAY {
          var str := Hex(|cmd|, 4);
          str := str + cmd;
          written := written + str;
          status := 0;
        } else if buf != FAIL {
          status := -1;
        }
      } else {
        data := data + buf;
      }
    }
  }

  // ---------------------------------------------------------------------------
  // What is written
  // ---------------------------------------------------------------------------

  function BareOkays(chunks: seq<string>): nat {
    if chunks == [] then 0 else (if chunks[0] == OKAY then 1 else 0) + BareOkays(chunks[1..])
  }

  function Copies(cmd: string, n: nat): seq<string> { seq(n, _ => cmd) }

  lemma {:induction false} WrittenPerOkay(s: Session, cmd: string, chunks: seq<string>)
    ensures ShellAll(s, cmd, chunks).written == s.written + Frames(Copies(cmd, BareOkays(chunks)))
    ensures ScreencapAll(s, cmd, chunks).written == s.written + Frames(Copies(cmd, BareOkays(chunks)))
    decreases |chunks|
  {
    if chunks == [] {
      assert s.written + "" == s.written;
    } else {
      var n := BareOkays(chunks[1..]);
      WrittenPerOkay(ShellStep(s, cmd, chunks[0]), cmd, chunks[1..]);
      WrittenPerOkay(ScreencapStep(s, cmd, chunks[0]), cmd, chunks[1..]);
      if chunks[0] == OKAY {
        assert Copies(cmd, n + 1)[1..] == Copies(cmd, n);
        assert s.written + Frame(cmd) + Frames(Copies(cmd, n)) == s.written + (Frame(cmd) + Frames(Copies(cmd, n)));
      }
    }
  }

  /** Over any run of a transport command, a length-prefixed reader of what was written finds
      the transport request followed by the service command once for each bare OKAY, if and
      only if every command written fits the four-digit length. */
  lemma TransportConversation(s: Session, transport: string, cmd: string, chunks: seq<string>)
    requires s.written == Frame(transport)
    ensures var n := BareOkays(chunks);
            ReadFrames(ShellAll(s, cmd, chunks).written) == Some([transport] + Copies(cmd, n)) <==>
            |transport| <= 0xFFFF && (n > 0 ==> |cmd| <= 0xFFFF)
    ensures ScreencapAll(s, cmd, chunks).written == ShellAll(s, cmd, chunks).written
  {
    var n := BareOkays(chunks);
    var cmds := [transport] + Copies(cmd, n);
    WrittenPerOkay(s, cmd, chunks);
    assert cmds[1..] == Copies(cmd, n);
    FramesRoundTrip(cmds);
    if |transport| <= 0xFFFF && (n > 0 ==> |cmd| <= 0xFFFF) {
      forall i | 0 <= i < |cmds| ensures |cmds[i]| <= 0xFFFF {}
    } else if |transport| <= 0xFFFF {
      assert cmds[1] == cmd;
    } else {
      assert cmds[0] == transport;
    }
  }

  // ---------------------------------------------------------------------------
  // What is stored
  // ---------------------------------------------------------------------------

  /** A shell command ends with status -1 exactly when its last chunk is a bare FAIL. */
  lemma {:induction false} ShellStatusIsLast(s: Session, cmd: string, chunks: seq<string>)
    requires chunks != []
    ensures ShellAll(s, cmd, chunks).status == if chunks[|chunks| - 1] == FAIL then -1 else 0
    decreases |chunks|
  {
    if |chunks| > 1 {
      ShellStatusIsLast(ShellStep(s, cmd, chunks[0]), cmd, chunks[1..]);
    }
  }

  /** The last chunk of four bytes that is not FAIL. */
  function LastWord(chunks: seq<string>): Option<string> {
    if chunks == [] then None
    else
      var c := chunks[|chunks| - 1];
      if |c| == 4 && c != FAIL then Some(c) else LastWord(chunks[..|chunks| - 1])
  }

  lemma {:induction false} ScreencapAppend(s: Session, cmd: string, chunks: seq<string>, c: string)
    ensures ScreencapAll(s, cmd, chunks + [c]) == ScreencapStep(ScreencapAll(s, cmd, chunks), cmd, c)
    decreases |chunks|
  {
    if chunks == [] {
      assert chunks + [c] == [c] && [c][1..] == [];
    } else {
      assert (chunks + [c])[1..] == chunks[1..] + [c];
      ScreencapAppend(ScreencapStep(s, cmd, chunks[0]), cmd, chunks[1..], c);
    }
  }

  /** A screen capture ends with status 0 when the last such word is OKAY, and with -1 when it
      is anything else; with none, the status is what it was. */
  lemma {:induction false} ScreencapStatus(s: Session, cmd: string, chunks: seq<string>)
    ensures ScreencapAll(s, cmd, chunks).status ==
            match LastWord(chunks)
            case None => s.status
            case Some(c) => if c == OKAY then 0 else -1
    decreases |chunks|
  {
    if chunks != [] {
      var before, c := chunks[..|chunks| - 1], chunks[|chunks| - 1];
      assert chunks == before + [c];
      ScreencapAppend(s, cmd, before, c);
      ScreencapStatus(s, cmd, before);
    }
  }

  /** The chunks that shell takes for output. */
  predicate Taken(chunk: string) { chunk != FAIL && !StartsWith(chunk, OKAY) }

  /** The chunks that shell stores as they are. */
  predicate IsOutput(chunk: string) { Taken(chunk) && NUL !in chunk }

  function LastTaken(chunks: seq<string>): Option<string> {
    if chunks == [] then None
    else
      var c := chunks[|chunks| - 1];
      if Taken(c) then Some(c) else LastTaken(chunks[..|chunks| - 1])
  }

  lemma {:induction false} ShellAppend(s: Session, cmd: string, chunks: seq<string>, c: string)
    ensures ShellAll(s, cmd, chunks + [c]) == ShellStep(ShellAll(s, cmd, chunks), cmd, c)
    decreases |chunks|
  {
    if chunks == [] {
      assert chunks + [c] == [c] && [c][1..] == [];
    } else {
      assert (chunks + [c])[1..] == chunks[1..] + [c];
      ShellAppend(ShellStep(s, cmd, chunks[0]), cmd, chunks[1..], c);
    }
  }

  /** Over any run the last chunk taken is all that is stored, up to its first NUL. */
  lemma {:induction false} ShellData(s: Session, cmd: string, chunks: seq<string>)
    ensures ShellAll(s, cmd, chunks).shellData ==
            match LastTaken(chunks)
            case None => s.shellData
            case Some(c) => CString(c)
    decreases |chunks|
  {
    if chunks != [] {
      var before, c := chunks[..|chunks| - 1], chunks[|chunks| - 1];
      assert chunks == before + [c];
      ShellAppend(s, cmd, before, c);
      ShellData(s, cmd, before);
    }
  }

  lemma {:induction false} LastTakenIsOne(chunks: seq<string>)
    ensures LastTaken(chunks).Some? ==> LastTaken(chunks).value in chunks
    ensures |chunks| == 1 ==> LastTaken(chunks) == if Taken(chunks[0]) then Some(chunks[0]) else None
  {
    if chunks != [] {
      LastTakenIsOne(chunks[..|chunks| - 1]);
    }
  }

  lemma {:induction false} CStringLength(s: string)
    ensures |CString(s)| <= |s| && (CString(s) == s <==> NUL !in s)
  {
    if s != "" {
      CStringLength(s[1..]);
      assert s == [s[0]] + s[1..];
    }
  }

  lemma {:induction false} ConcatLonger(chunks: seq<string>, c: string)
    requires c in chunks && NoneEmpty(chunks)
    ensures |Concat(chunks)| >= |c|
    ensures |chunks| > 1 ==> |Concat(chunks)| > |c|
  {
    if c in chunks[1..] {
      ConcatLonger(chunks[1..], c);
    } else if |chunks| > 1 {
      assert chunks[1..][0] != "";
      assert |Concat(chunks[1..])| >= |chunks[1]|;
    }
  }

  /** What is stored when a shell command's output, in non-empty chunks, follows the two OKAYs
      of its handshake. It is the whole output if and only if the output is a single chunk that
      holds no NUL, is not a bare FAIL and does not start with OKAY; unless nothing was taken,
      and what was stored before happens to be the same. */
  lemma ShellOutputKept(s: Session, cmd: string, output: seq<string>)
    requires output != [] && NoneEmpty(output)
    ensures var n := ShellAll(s, cmd, [OKAY, OKAY] + output);
            && n.status == (if output[|output| - 1] == FAIL then -1 else 0)
            && (n.shellData == Concat(output) <==>
                (|output| == 1 && IsOutput(output[0])) || (LastTaken(output).None? && s.shellData == Concat(output)))
  {
    var chunks := [OKAY, OKAY] + output;
    assert chunks[1..][1..] == output;
    assert StartsWith(OKAY, OKAY);
    var t := ShellStep(ShellStep(s, cmd, OKAY), cmd, OKAY);
    assert t.shellData == s.shellData;
    ShellStatusIsLast(t, cmd, output);
    ShellData(t, cmd, output);
    LastTakenIsOne(output);
    if LastTaken(output).Some? {
      var c := LastTaken(output).value;
      ConcatLonger(output, c);
      CStringLength(c);
      if |output| == 1 {
        assert output == [c];
        ConcatOne(c);
      }
    }
  }

  /** A command that prints "OKAY" and a line break has its output dropped, with status 0. */
  lemma PrintedOkayIsLost(s: Session, cmd: string)
    requires s.shellData == ""
    ensures ShellAll(s, cmd, [OKAY, OKAY] + ["OKAY\n"]).shellData == ""
    ensures ShellAll(s, cmd, [OKAY, OKAY] + ["OKAY\n"]).status == 0
  {
    var output := ["OKAY\n"];
    assert "OKAY\n"[..4] == OKAY;
    ShellOutputKept(s, cmd, output);
    var t := ShellStep(ShellStep(s, cmd, OKAY), cmd, OKAY);
    assert ([OKAY, OKAY] + output)[1..][1..] == output;
    ShellData(t, cmd, output);
    LastTakenIsOne(output);
  }

  lemma {:induction false} ScreencapGain(s: Session, cmd: string, chunks: seq<string>)
    ensures var n := ScreencapAll(s, cmd, chunks).data;
            |n| <= |s.data| + |Concat(chunks)| &&
            ((exists i :: 0 <= i < |chunks| && |chunks[i]| == 4) ==> |n| < |s.data| + |Concat(chunks)|)
    decreases |chunks|
  {
    if chunks != [] {
      ScreencapGain(ScreencapStep(s, cmd, chunks[0]), cmd, chunks[1..]);
      if i :| 0 < i < |chunks| && |chunks[i]| == 4 {
        assert chunks[1..][i - 1] == chunks[i];
      }
    }
  }

  lemma {:induction false} ScreencapKeeps(s: Session, cmd: string, chunks: seq<string>)
    requires forall i :: 0 <= i < |chunks| ==> |chunks[i]| != 4
    ensures ScreencapAll(s, cmd, chunks) == s.(data := s.data + Concat(chunks))
    decreases |chunks|
  {
    if chunks == [] {
      assert s.data + "" == s.data;
    } else {
      ScreencapKeeps(ScreencapStep(s, cmd, chunks[0]), cmd, chunks[1..]);
      assert s.data + chunks[0] + Concat(chunks[1..]) == s.data + Concat(chunks);
    }
  }

  /** An image is gathered byte for byte if and only if no chunk of it is four bytes long. */
  lemma ImageKept(s: Session, cmd: string, image: seq<string>)
    ensures ScreencapAll(s, cmd, image).data == s.data + Concat(image) <==>
            forall i :: 0 <= i < |image| ==> |image[i]| != 4
  {
    if forall i :: 0 <= i < |image| ==> |image[i]| != 4 {
      ScreencapKeeps(s, cmd, image);
    } else {
      ScreencapGain(s, cmd, image);
    }
  }

  /** The chunks that are not taken for status words. */
  function ImageChunks(chunks: seq<string>): seq<string> {
    if chunks == [] then []
    else if |chunks[0]| == 4 then ImageChunks(chunks[1..])
    else [chunks[0]] + ImageChunks(chunks[1..])
  }

  /** Over any run of a screen capture: the image is the chunks of other lengths, whole and in
      order, and the shell data is untouched. */
  lemma {:induction false} ImageExactly(s: Session, cmd: string, chunks: seq<string>)
    ensures var n := ScreencapAll(s, cmd, chunks);
            n.data == s.data + Concat(ImageChunks(chunks)) && n.shellData == s.shellData
    decreases |chunks|
  {
    if chunks == [] {
      assert s.data + "" == s.data;
    } else {
      var c := chunks[0];
      var t := ScreencapStep(s, cmd, c);
      assert t.data == (if |c| == 4 then s.data else s.data + c) && t.shellData == s.shellData;
      ImageExactly(t, cmd, chunks[1..]);
      FirstImageChunk(s.data, chunks);
    }
  }

  lemma FirstImageChunk(data: string, chunks: seq<string>)
    requires chunks != []
    ensures data + Concat(ImageChunks(chunks)) ==
            (if |chunks[0]| == 4 then data else data + chunks[0]) + Concat(ImageChunks(chunks[1..]))
  {
    if |chunks[0]| != 4 {
      FirstThenOthers(data, ImageChunks(chunks));
      assert ImageChunks(chunks)[1..] == ImageChunks(chunks[1..]);
    }
  }

  /** A whole session, from the two OKAYs of the handshake on: what is written, the status, and
      the image, which is what was sent if and only if no chunk of it is four bytes long. */
  lemma ScreencapSession(s: Session, cmd: string, image: seq<string>)
    ensures var n := ScreencapAll(s, cmd, [OKAY, OKAY] + image);
            && n.written == s.written + Frame(cmd) + Frame(cmd) + Frames(Copies(cmd, BareOkays(image)))
            && n.data == s.data + Concat(ImageChunks(image)) && n.shellData == s.shellData
            && (n.data == s.data + Concat(image) <==> forall i :: 0 <= i < |image| ==> |image[i]| != 4)
            && n.status == match LastWord(image)
                           case None => 0
                           case Some(c) => if c == OKAY then 0 else -1
  {
    var chunks := [OKAY, OKAY] + image;
    assert chunks[1..][1..] == image;
    var t := ScreencapStep(ScreencapStep(s, cmd, OKAY), cmd, OKAY);
    assert t == s.(written := s.written + Frame(cmd) + Frame(cmd), status := 0);
    ImageExactly(t, cmd, image);
    ImageKept(t, cmd, image);
    ScreencapStatus(t, cmd, image);
    WrittenPerOkay(t, cmd, image);
  }

  function WithoutFail(chunks: seq<string>): seq<string> {
    if chunks == [] then []
    else if chunks[0] == FAIL then WithoutFail(chunks[1..])
    else [chunks[0]] + WithoutFail(chunks[1..])
  }

  /** A bare FAIL, wherever it comes in a screen capture, changes nothing that is written,
      stored or returned. */
  lemma {:induction false} ScreencapIgnoresFail(s: Session, cmd: string, chunks: seq<string>)
    ensures ScreencapAll(s, cmd, chunks) == ScreencapAll(s, cmd, WithoutFail(chunks))
    decreases |chunks|
  {
    if chunks != [] {
      ScreencapIgnoresFail(ScreencapStep(s, cmd, chunks[0]), cmd, chunks[1..]);
      if chunks[0] != FAIL {
        assert WithoutFail(chunks)[1..] == WithoutFail(chunks[1..]);
      }
    }
  }
}
