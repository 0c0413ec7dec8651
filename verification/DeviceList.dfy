/** The device-list parser of src/utils.cpp, and the two text forms an ADB server prints a
    device in. Where the source would index past the end of a vector, or convert a number
    that does not fit an int, the model's result is None. */
module DeviceList {
  import opened Options
  import opened Text

  datatype ConnectionType = Unknown | Usb | WifiSocket

  datatype DeviceInfo = DeviceInfo(
    serial: string,
    state: string,
    busAddress: string,
    product: string,
    model: string,
    device: string,
    connectionType: ConnectionType,
    transportId: int)

  /** A freshly constructed DeviceInfo. */
  const BLANK := DeviceInfo("", "", "", "", "", "", Unknown, -1)

  // ---------------------------------------------------------------------------
  // std::atoi
  // ---------------------------------------------------------------------------

  const INT_MAX: int := 0x7FFF_FFFF

  predicate IsDigit(c: char) { '0' <= c <= '9' }

  predicate IsSpace(c: char) { c == ' ' || 9 as char <= c <= 13 as char }

  function DropSpace(s: string): string {
    if s != "" && IsSpace(s[0]) then DropSpace(s[1..]) else s
  }

  /** The digits s starts with. */
  function Digits(s: string): (r: string)
    ensures AllDigits(r)
  {
    if s != "" && IsDigit(s[0]) then [s[0]] + Digits(s[1..]) else ""
  }

  predicate AllDigits(s: string) { forall i :: 0 <= i < |s| ==> IsDigit(s[i]) }

  /** The value of a string of decimal digits. */
  function Value(s: string): nat
    requires AllDigits(s)
  {
    if s == "" then 0
    else 10 * Value(s[..|s| - 1]) + (s[|s| - 1] as int - '0' as int)
  }

  function AfterSign(t: string): string {
    if t != "" && (t[0] == '-' || t[0] == '+') then t[1..] else t
  }

  function Atoi(s: string): Option<int> {
    var t := DropSpace(s);
    var digits := Digits(AfterSign(t));
    var v: int := if t != "" && t[0] == '-' then -(Value(digits) as int) else Value(digits);
    if -INT_MAX - 1 <= v <= INT_MAX then Some(v) else None
  }

  // ---------------------------------------------------------------------------
  // Parsing
  // ---------------------------------------------------------------------------

  function FirstTabToSpace(line: string): string {
    if line == "" then ""
    else if line[0] == '\t' then [' '] + line[1..]
    else [line[0]] + FirstTabToSpace(line[1..])
  }

  /** The text after the first colon, up to the next one; None when there is no colon. */
  function ColonValue(field: string): Option<string> {
    var p := Split(field, ':');
    if |p| > 1 then Some(p[1]) else None
  }

  function ParseFields(f: seq<string>): Option<DeviceInfo> {
    if |f| > 3 then
      if |f| < 6 then None
      else
        match (ColonValue(f[2]), ColonValue(f[3]), ColonValue(f[4]), ColonValue(f[5]))
        case (Some(product), Some(model), Some(device), Some(id)) =>
          (match Atoi(id)
           case Some(n) =>
             Some(BLANK.(serial := f[0], state := f[1], product := product, model := model,
                         device := device, transportId := n))
           case None => None)
        case _ => None
    else if |f| < 2 then None
    else Some(BLANK.(serial := f[0], state := f[1]))
  }

  function ParseLine(line: string): Option<DeviceInfo> {
    ParseFields(Split(FirstTabToSpace(line), ' '))
  }

  function ParseLines(lines: seq<string>): Option<seq<DeviceInfo>> {
    if lines == [] then Some([])
    else
      match (ParseLine(lines[0]), ParseLines(lines[1..]))
      case (Some(d), Some(rest)) => Some([d] + rest)
      case _ => None
  }

  method ReplaceTab(line: string) returns (res: string)
    ensures res == FirstTabToSpace(line)
  {
    var i := 0;
    while i < |line| && line[i] != '\t'
      invariant i <= |line|
      invariant '\t' !in line[..i]
    {
      i := i + 1;
    }
    if i < |line| {
      FirstTab(line[..i], line[i + 1..]);
      assert line == line[..i] + ['\t'] + line[i + 1..];
      res := line[i := ' '];
    } else {
      assert line[..i] == line;
      NoTabNoChange(line);
      res := line;
    }
  }

  method ParseDevice(line: string) returns (info: Option<DeviceInfo>)
    ensures info == ParseLine(line)
  {
    var replaced := ReplaceTab(line);
    var fields := StringSplit(replaced, ' ');
    if |fields| > 3 {
      if |fields| < 6 {
        return None;
      }
      var d := BLANK;
      d := d.(serial := fields[0]);
      d := d.(state := fields[1]);
      var product := StringSplit(fields[2], ':');
      var model := StringSplit(fields[3], ':');
      var device := StringSplit(fields[4], ':');
      var id := StringSplit(fields[5], ':');
      if |product| < 2 || |model| < 2 || |device| < 2 || |id| < 2 {
        return None;
      }
      d := d.(product := product[1]);
      d := d.(model := model[1]);
      d := d.(device := device[1]);
      var n := Atoi(id[1]);
      if n.None? {
        return None;
      }
      info := Some(d.(transportId := n.value));
    } else {
      if |fields| < 2 {
        return None;
      }
      info := Some(BLANK.(serial := fields[0], state := fields[1]));
    }
  }

  lemma {:induction false} ParseLinesOfTwo(a: seq<string>, b: seq<string>)
    ensures ParseLines(a + b) ==
            match (ParseLines(a), ParseLines(b))
            case (Some(x), Some(y)) => Some(x + y)
            case _ => None
  {
    if a == [] {
      assert a + b == b;
      if ParseLines(b).Some? {
        assert [] + ParseLines(b).value == ParseLines(b).value;
      }
    } else {
      assert (a + b)[1..] == a[1..] + b;
      ParseLinesOfTwo(a[1..], b);
      if ParseLine(a[0]).Some? && ParseLines(a[1..]).Some? && ParseLines(b).Some? {
        var d, x, y := ParseLine(a[0]).value, ParseLines(a[1..]).value, ParseLines(b).value;
        assert [d] + (x + y) == ([d] + x) + y;
      }
    }
  }

  lemma ParseOne(line: string)
    ensures ParseLines([line]) == match ParseLine(line)
                                  case Some(d) => Some([d])
                                  case None => None
  {
    assert [line][1..] == [] && ParseLines([]) == Some([]);
    if ParseLine(line).Some? {
      assert [ParseLine(line).value] + [] == [ParseLine(line).value];
    }
  }

  /** One more line at the end. */
  lemma ParseOneMore(lines: seq<string>, i: nat)
    requires i < |lines| && ParseLines(lines[..i]).Some?
    ensures ParseLines(lines[..i + 1]) ==
            match ParseLine(lines[i])
            case Some(d) => Some(ParseLines(lines[..i]).value + [d])
            case None => None
  {
    ParseOne(lines[i]);
    assert lines[..i + 1] == lines[..i] + [lines[i]];
    ParseLinesOfTwo(lines[..i], [lines[i]]);
  }

  lemma ParsePrefixFails(lines: seq<string>, i: nat)
    requires i <= |lines| && ParseLines(lines[..i]).None?
    ensures ParseLines(lines).None?
  {
    assert lines == lines[..i] + lines[i..];
    ParseLinesOfTwo(lines[..i], lines[i..]);
  }

  function Appended(devices: seq<DeviceInfo>, lines: seq<string>): Option<seq<DeviceInfo>> {
    match ParseLines(lines)
    case Some(parsed) => Some(devices + parsed)
    case None => None
  }

  lemma AppendOneMore(devices: seq<DeviceInfo>, lines: seq<string>, i: nat)
    requires i < |lines| && Appended(devices, lines[..i]).Some?
    ensures match ParseLine(lines[i])
            case Some(d) => Appended(devices, lines[..i + 1]) == Some(Appended(devices, lines[..i]).value + [d])
            case None => Appended(devices, lines) == None
  {
    ParseOneMore(lines, i);
    if ParseLine(lines[i]).None? {
      ParsePrefixFails(lines, i + 1);
    } else {
      var parsed, d := ParseLines(lines[..i]).value, ParseLine(lines[i]).value;
      assert devices + (parsed + [d]) == devices + parsed + [d];
    }
  }

  /** Appends the parsed devices; the result is None when some line is malformed. */
  method GetDeviceInfoFromBuf(devices: seq<DeviceInfo>, buf: string) returns (all: Option<seq<DeviceInfo>>)
    ensures all == Appended(devices, Lines(buf))
  {
    var tmp := StringSplit(buf, '\n');
    tmp := tmp[..|tmp| - 1];
    var list := devices;
    assert ParseLines([]) == Some([]) && devices + [] == devices;
    for i := 0 to |tmp|
      invariant Appended(devices, tmp[..i]) == Some(list)
    {
      var d := ParseDevice(tmp[i]);
      AppendOneMore(devices, tmp, i);
      if d.None? {
        return None;
      }
      list := list + [d.value];
    }
    assert tmp[..|tmp|] == tmp;
    all := Some(list);
  }

  // ---------------------------------------------------------------------------
  // Printing
  // ---------------------------------------------------------------------------

  function Decimal(n: nat): string {
    if n < 10 then [(n + '0' as int) as char]
    else Decimal(n / 10) + [(n % 10 + '0' as int) as char]
  }

  function Spaces(n: nat): string { seq(n, _ => ' ') }

  /** A device as an ADB server prints it: `Short` is a line of "devices", `Long` a line of
      "devices -l" with any padding of at least one space in each of its five gaps. */
  datatype Printed =
    | Short(serial: string, state: string)
    | Long(serial: string, state: string, product: string, model: string, device: string,
           transportId: nat, gaps: seq<nat>)
  {
    ghost predicate Valid() {
      Long? ==> |gaps| == 5 && forall i :: 0 <= i < 5 ==> gaps[i] >= 1
    }

    function Fields(): seq<string>
      requires Long?
    {
      [serial, state, "product:" + product, "model:" + model, "device:" + device,
       "transport_id:" + Decimal(transportId)]
    }

    function Line(): string
      requires Valid()
    {
      if Short? then serial + ['\t'] + state else Padded(Fields(), gaps)
    }

    function Info(): DeviceInfo {
      if Short? then BLANK.(serial := serial, state := state)
      else BLANK.(serial := serial, state := state, product := product, model := model,
                  device := device, transportId := transportId)
    }

    /** A printed field has no line break, and no tab where one would be mistaken for the
        separator of the short form. */
    predicate Printable() {
      '\n' !in serial && '\t' !in serial && '\n' !in state &&
      (Long? ==> '\t' !in state && forall c :: c in product || c in model || c in device ==> c != '\n' && c != '\t')
    }

    /** When the parser gives the device back. */
    predicate Recoverable() {
      ' ' !in serial && ' ' !in state &&
      (Long? ==>
         state != "" && transportId <= INT_MAX &&
         forall c :: c in product || c in model || c in device ==> c != ' ' && c != ':')
    }
  }

  function Padded(fields: seq<string>, gaps: seq<nat>): string
    requires |fields| == |gaps| + 1
    decreases |gaps|
  {
    if gaps == [] then fields[0]
    else fields[0] + Spaces(gaps[0]) + Padded(fields[1..], gaps[1..])
  }

  // ---------------------------------------------------------------------------
  // Round trip
  // ---------------------------------------------------------------------------

  lemma {:induction false} DecimalValue(n: nat)
    ensures AllDigits(Decimal(n)) && Decimal(n) != "" && Value(Decimal(n)) == n
  {
    if n >= 10 {
      DecimalValue(n / 10);
      var s := Decimal(n);
      assert s[..|s| - 1] == Decimal(n / 10);
    } else {
      assert Value("") == 0 && Decimal(n)[..0] == "";
    }
  }

  lemma {:induction false} DigitsThenRest(s: string, rest: string)
    requires AllDigits(s) && (rest == "" || !IsDigit(rest[0]))
    ensures Digits(s + rest) == s
  {
    if s == "" {
      assert s + rest == rest;
    } else {
      assert (s + rest)[1..] == s[1..] + rest;
      DigitsThenRest(s[1..], rest);
      assert [s[0]] + s[1..] == s;
    }
  }

  lemma {:induction false} SpaceThenRest(space: string, rest: string)
    requires forall i :: 0 <= i < |space| ==> IsSpace(space[i])
    requires rest == "" || !IsSpace(rest[0])
    ensures DropSpace(space + rest) == rest
  {
    if space == "" {
      assert space + rest == rest;
    } else {
      assert (space + rest)[1..] == space[1..] + rest;
      SpaceThenRest(space[1..], rest);
    }
  }

  /** atoi of white space, an optional sign, a printed number and anything that does not go on
      with a digit: the number, exactly when it fits an int. */
  lemma AtoiExactly(space: string, sign: string, n: nat, rest: string)
    requires forall i :: 0 <= i < |space| ==> IsSpace(space[i])
    requires (sign == "" || sign == "+" || sign == "-") && (rest == "" || !IsDigit(rest[0]))
    ensures var v: int := if sign == "-" then -(n as int) else n;
            Atoi(space + (sign + (Decimal(n) + rest))) == if -INT_MAX - 1 <= v <= INT_MAX then Some(v) else None
  {
    var t := sign + (Decimal(n) + rest);
    DecimalValue(n);
    SignThenNumber(sign, Decimal(n), rest);
    SpaceThenRest(space, t);
    DigitsThenRest(Decimal(n), rest);
    AtoiAfterSpace(space + t, t, Decimal(n));
  }

  lemma SignThenNumber(sign: string, digits: string, rest: string)
    requires sign == "" || sign == "+" || sign == "-"
    requires AllDigits(digits) && digits != ""
    ensures var t := sign + (digits + rest);
            t != "" && !IsSpace(t[0]) && (t[0] == '-' <==> sign == "-") && AfterSign(t) == digits + rest
  {
    var number := digits + rest;
    var t := sign + number;
    assert number[0] == digits[0] && IsDigit(number[0]);
    assert t[0] == (if sign == "" then number[0] else sign[0]);
    assert sign == "" ==> t == number;
    assert sign != "" ==> t[1..] == number;
  }

  lemma AtoiAfterSpace(s: string, t: string, digits: string)
    requires t != "" && DropSpace(s) == t && Digits(AfterSign(t)) == digits
    ensures AllDigits(digits)
    ensures var v: int := if t[0] == '-' then -(Value(digits) as int) else Value(digits);
            Atoi(s) == if -INT_MAX - 1 <= v <= INT_MAX then Some(v) else None
  {
  }

  lemma AtoiDecimal(n: nat)
    ensures Atoi(Decimal(n)) == if n <= INT_MAX then Some(n) else None
  {
    AtoiExactly("", "", n, "");
    assert "" + ("" + (Decimal(n) + "")) == Decimal(n);
  }

  lemma {:induction false} NoTabNoChange(line: string)
    requires '\t' !in line
    ensures FirstTabToSpace(line) == line
  {
    if line != "" {
      NoTabNoChange(line[1..]);
      assert [line[0]] + line[1..] == line;
    }
  }

  lemma {:induction false} FirstTab(a: string, b: string)
    requires '\t' !in a
    ensures FirstTabToSpace(a + ['\t'] + b) == a + [' '] + b
  {
    var s := a + ['\t'] + b;
    if a == "" {
      assert s[1..] == b;
    } else {
      assert s[1..] == a[1..] + ['\t'] + b;
      FirstTab(a[1..], b);
      assert [a[0]] + (a[1..] + [' '] + b) == a + [' '] + b;
    }
  }

  lemma {:induction false} CollapseGap(word: string, gap: nat, rest: string)
    requires ' ' !in word && gap >= 1 && rest != "" && rest[0] != ' '
    ensures Collapse(word + Spaces(gap) + rest) == word + [' '] + Collapse(rest)
    decreases |word|, gap
  {
    var s := word + Spaces(gap) + rest;
    if word != "" {
      assert s[1..] == word[1..] + Spaces(gap) + rest;
      CollapseGap(word[1..], gap, rest);
      assert [word[0]] + (word[1..] + [' '] + Collapse(rest)) == word + [' '] + Collapse(rest);
    } else if gap == 1 {
      assert s[1..] == rest;
    } else {
      assert s[1..] == word + Spaces(gap - 1) + rest;
      CollapseGap(word, gap - 1, rest);
    }
  }

  lemma {:induction false} CollapsePadded(fields: seq<string>, gaps: seq<nat>)
    requires |fields| == |gaps| + 1 && AllFree(fields, ' ')
    requires forall i :: 1 <= i < |fields| ==> fields[i] != ""
    requires forall i :: 0 <= i < |gaps| ==> gaps[i] >= 1
    ensures Collapse(Padded(fields, gaps)) == Join(fields, ' ')
    decreases |gaps|
  {
    if gaps == [] {
      CollapseFixed(fields[0]);
    } else {
      var rest := Padded(fields[1..], gaps[1..]);
      forall i | 0 <= i < |fields| - 1 ensures fields[1..][i] == fields[i + 1] {}
      CollapsePadded(fields[1..], gaps[1..]);
      assert rest != "" && rest[0] == fields[1][0] != ' ';
      CollapseGap(fields[0], gaps[0], rest);
    }
  }

  lemma LabelledValue(name: string, v: string)
    requires ':' !in name && ':' !in v
    ensures ColonValue(name + ":" + v) == Some(v)
  {
    SplitFirst(name, v, ':');
    SplitWord(v, ':');
  }

  lemma ColonValueIsClean(field: string)
    requires ' ' !in field && ColonValue(field).Some?
    ensures ' ' !in ColonValue(field).value && ':' !in ColonValue(field).value
  {
    PiecesAreFree(field, ':');
    PieceChars(field, ':', 1);
  }

  /** A piece has only characters of the string it was cut from. */
  lemma {:induction false} PieceChars(s: string, d: char, i: nat)
    requires i < |Split(s, d)|
    ensures forall c :: c in Split(s, d)[i] ==> c in s
  {
    if s != "" {
      if s[0] == d {
        if i > 0 { PieceChars(s[1..], d, i - 1); }
      } else {
        PieceChars(s[1..], d, i);
      }
    }
  }

  lemma {:induction false} CollapseChars(s: string)
    ensures forall c :: c in Collapse(s) ==> c in s
  {
    if |s| > 1 {
      CollapseChars(s[1..]);
    }
  }

  lemma ShortRecovered(p: Printed)
    requires p.Short? && p.Printable() && p.Recoverable()
    ensures ParseLine(Collapse(p.Line())) == Some(p.Info())
  {
    CollapseAtBreak(p.serial, '\t', p.state);
    CollapseFixed(p.serial);
    CollapseFixed(p.state);
    FirstTab(p.serial, p.state);
    SplitFirst(p.serial, p.state, ' ');
    SplitWord(p.state, ' ');
  }

  /** The line of a long-form device whose fields are free of spaces, and what it splits to. */
  lemma LongFields(p: Printed)
    requires p.Long? && p.Valid() && p.Printable() && p.state != ""
    requires AllFree(p.Fields(), ' ')
    ensures Split(FirstTabToSpace(Collapse(p.Line())), ' ') == p.Fields()
  {
    CollapsePadded(p.Fields(), p.gaps);
    SplitJoin(p.Fields(), ' ');
    FieldsHaveNo(p, '\t');
    JoinChars(p.Fields(), ' ', '\t');
    NoTabNoChange(Join(p.Fields(), ' '));
  }

  /** Neither a tab nor a line break is in the fields of a printable device. */
  lemma FieldsHaveNo(p: Printed, c: char)
    requires p.Long? && p.Printable() && (c == '\t' || c == '\n')
    ensures AllFree(p.Fields(), c)
  {
    DecimalValue(p.transportId);
    var f := p.Fields();
    assert c !in f[0] && c !in f[1] && c !in f[2] && c !in f[3] && c !in f[4];
    assert c !in f[5];
  }

  lemma {:induction false} JoinChars(pieces: seq<string>, d: char, c: char)
    requires |pieces| >= 1 && AllFree(pieces, c) && c != d
    ensures c !in Join(pieces, d)
  {
    if |pieces| > 1 {
      forall i | 0 <= i < |pieces| - 1 ensures c !in pieces[1..][i] { assert pieces[1..][i] == pieces[i + 1]; }
      JoinChars(pieces[1..], d, c);
    }
  }

  /** The parser gives a printed device back exactly when its serial and state have no space,
      and, in the long form, the state is not empty, the three values have neither space nor
      colon, and the transport id fits an int. */
  lemma DeviceRoundTrip(p: Printed)
    requires p.Valid() && p.Printable()
    ensures ParseLine(Collapse(p.Line())) == Some(p.Info()) <==> p.Recoverable()
  {
    if p.Short? {
      if p.Recoverable() {
        ShortRecovered(p);
      } else {
        PiecesAreFree(FirstTabToSpace(Collapse(p.Line())), ' ');
      }
    } else {
      LongRoundTrip(p);
    }
  }

  lemma LongRoundTrip(p: Printed)
    requires p.Long? && p.Valid() && p.Printable()
    ensures ParseLine(Collapse(p.Line())) == Some(p.Info()) <==> p.Recoverable()
  {
    if ParseLine(Collapse(p.Line())) == Some(p.Info()) {
      LongParsedIsClean(p);
    }
    if CleanFields(p) {
      LongParsed(p);
    }
  }

  predicate CleanFields(p: Printed)
    requires p.Long?
  {
    ' ' !in p.serial && ' ' !in p.state && p.state != "" &&
    forall c :: c in p.product || c in p.model || c in p.device ==> c != ' ' && c != ':'
  }

  lemma LongParsedIsClean(p: Printed)
    requires p.Long? && p.Valid() && p.Printable()
    requires ParseLine(Collapse(p.Line())) == Some(p.Info())
    ensures CleanFields(p)
  {
    var line := Collapse(p.Line());
    LongHasNoTab(p);
    NoTabNoChange(line);
    var f := Split(line, ' ');
    PiecesAreFree(line, ' ');
    ColonValueIsClean(f[2]);
    ColonValueIsClean(f[3]);
    ColonValueIsClean(f[4]);
    CollapseNoAdjacent(p.Line());
    InnerPieces(line, 1);
  }

  lemma LongParsed(p: Printed)
    requires p.Long? && p.Valid() && p.Printable() && CleanFields(p)
    ensures ParseLine(Collapse(p.Line())) == if p.transportId <= INT_MAX then Some(p.Info()) else None
  {
    assert AllFree(p.Fields(), ' ') by { DecimalValue(p.transportId); }
    LongFields(p);
    FieldsParsed(p);
  }

  lemma FieldsParsed(p: Printed)
    requires p.Long? && CleanFields(p)
    ensures ParseFields(p.Fields()) == if p.transportId <= INT_MAX then Some(p.Info()) else None
  {
    FieldValues(p);
    AtoiDecimal(p.transportId);
    FieldsGive(p.Fields(), p.product, p.model, p.device, Decimal(p.transportId));
  }

  lemma FieldsGive(f: seq<string>, product: string, model: string, device: string, id: string)
    requires |f| == 6
    requires ColonValue(f[2]) == Some(product) && ColonValue(f[3]) == Some(model)
    requires ColonValue(f[4]) == Some(device) && ColonValue(f[5]) == Some(id)
    ensures ParseFields(f) ==
            match Atoi(id)
            case Some(n) => Some(BLANK.(serial := f[0], state := f[1], product := product, model := model,
                                        device := device, transportId := n))
            case None => None
  {
  }

  lemma FieldValues(p: Printed)
    requires p.Long? && CleanFields(p)
    ensures var f := p.Fields();
            ColonValue(f[2]) == Some(p.product) && ColonValue(f[3]) == Some(p.model) &&
            ColonValue(f[4]) == Some(p.device) && ColonValue(f[5]) == Some(Decimal(p.transportId))
  {
    var f := p.Fields();
    DecimalValue(p.transportId);
    LabelledValue("product", p.product);
    LabelledValue("model", p.model);
    LabelledValue("device", p.device);
    LabelledValue("transport_id", Decimal(p.transportId));
    assert f[2] == "product" + ":" + p.product;
    assert f[3] == "model" + ":" + p.model;
    assert f[4] == "device" + ":" + p.device;
    assert f[5] == "transport_id" + ":" + Decimal(p.transportId);
  }

  lemma LongHasNoTab(p: Printed)
    requires p.Long? && p.Valid() && p.Printable()
    ensures '\t' !in Collapse(p.Line())
  {
    FieldsHaveNo(p, '\t');
    PaddedChars(p.Fields(), p.gaps, '\t');
    CollapseChars(p.Line());
  }

  lemma {:induction false} PaddedChars(fields: seq<string>, gaps: seq<nat>, c: char)
    requires |fields| == |gaps| + 1 && AllFree(fields, c) && c != ' '
    ensures c !in Padded(fields, gaps)
    decreases |gaps|
  {
    if gaps != [] {
      forall i | 0 <= i < |fields| - 1 ensures c !in fields[1..][i] { assert fields[1..][i] == fields[i + 1]; }
      PaddedChars(fields[1..], gaps[1..], c);
    }
  }

  ghost predicate AllPrintable(ps: seq<Printed>) {
    forall i :: 0 <= i < |ps| ==> ps[i].Valid() && ps[i].Printable()
  }

  /** What the server sends: one line for each device. */
  function PrintAll(ps: seq<Printed>): string
    requires forall i :: 0 <= i < |ps| ==> ps[i].Valid()
  {
    if ps == [] then "" else ps[0].Line() + ['\n'] + PrintAll(ps[1..])
  }

  function Infos(ps: seq<Printed>): seq<DeviceInfo> {
    if ps == [] then [] else [ps[0].Info()] + Infos(ps[1..])
  }

  lemma LineHasNoBreak(p: Printed)
    requires p.Valid() && p.Printable()
    ensures '\n' !in Collapse(p.Line())
  {
    if p.Long? {
      FieldsHaveNo(p, '\n');
      PaddedChars(p.Fields(), p.gaps, '\n');
    }
    CollapseChars(p.Line());
  }

  /** One step of reading a printed list: the first line, then the rest. */
  lemma PrintedLines(ps: seq<Printed>)
    requires AllPrintable(ps) && ps != []
    ensures Lines(Collapse(PrintAll(ps))) == [Collapse(ps[0].Line())] + Lines(Collapse(PrintAll(ps[1..])))
  {
    var line, rest := ps[0].Line(), PrintAll(ps[1..]);
    CollapseAtBreak(line, '\n', rest);
    LineHasNoBreak(ps[0]);
    SplitFirst(Collapse(line), Collapse(rest), '\n');
    var q := Split(Collapse(rest), '\n');
    assert ([Collapse(line)] + q)[..|q|] == [Collapse(line)] + q[..|q| - 1];
  }

  lemma ParseFirst(first: string, rest: seq<string>, d: DeviceInfo, ds: seq<DeviceInfo>)
    ensures ParseLines([first] + rest) == Some([d] + ds) <==> ParseLine(first) == Some(d) && ParseLines(rest) == Some(ds)
  {
    assert ([first] + rest)[1..] == rest;
    if ParseLine(first).Some? && ParseLines(rest).Some? {
      var x := [ParseLine(first).value] + ParseLines(rest).value;
      assert x[1..] == ParseLines(rest).value && ([d] + ds)[1..] == ds && ([d] + ds)[0] == d;
    }
  }

  predicate AllRecoverable(ps: seq<Printed>) {
    forall i :: 0 <= i < |ps| ==> ps[i].Recoverable()
  }

  /** Printing any list of devices, collapsing the spaces and parsing gives exactly those
      devices in order, if and only if every one of them is recoverable. */
  lemma {:induction false} DeviceListRoundTrip(ps: seq<Printed>)
    requires AllPrintable(ps)
    ensures ParseLines(Lines(Collapse(PrintAll(ps)))) == Some(Infos(ps)) <==> AllRecoverable(ps)
  {
    if ps != [] {
      PrintedLines(ps);
      DeviceRoundTrip(ps[0]);
      DeviceListRoundTrip(ps[1..]);
      ParseFirst(Collapse(ps[0].Line()), Lines(Collapse(PrintAll(ps[1..]))), ps[0].Info(), Infos(ps[1..]));
      assert AllRecoverable(ps) <==> ps[0].Recoverable() && AllRecoverable(ps[1..]) by {
        forall i | 1 <= i < |ps| ensures ps[i] == ps[1..][i - 1] {}
      }
    }
  }

  // The plain list, in the short form, is parsed as it comes, without collapsing.

  lemma ShortLineRoundTrip(p: Printed)
    requires p.Short? && p.Printable()
    ensures ParseLine(p.Line()) == Some(p.Info()) <==> p.Recoverable()
  {
    FirstTab(p.serial, p.state);
    if p.Recoverable() {
      SplitFirst(p.serial, p.state, ' ');
      SplitWord(p.state, ' ');
    } else {
      PiecesAreFree(FirstTabToSpace(p.Line()), ' ');
    }
  }

  /** Printing any list of devices in the short form and parsing it gives exactly those devices
      in order, if and only if every one of them is recoverable. */
  lemma {:induction false} ShortListRoundTrip(ps: seq<Printed>)
    requires AllPrintable(ps) && forall i :: 0 <= i < |ps| ==> ps[i].Short?
    ensures ParseLines(Lines(PrintAll(ps))) == Some(Infos(ps)) <==> AllRecoverable(ps)
  {
    if ps != [] {
      FirstPrintedLine(ps);
      ShortLineRoundTrip(ps[0]);
      ShortListRoundTrip(ps[1..]);
      ParseFirst(ps[0].Line(), Lines(PrintAll(ps[1..])), ps[0].Info(), Infos(ps[1..]));
      assert AllRecoverable(ps) <==> ps[0].Recoverable() && AllRecoverable(ps[1..]) by {
        forall i | 1 <= i < |ps| ensures ps[i] == ps[1..][i - 1] {}
      }
    }
  }

  lemma FirstPrintedLine(ps: seq<Printed>)
    requires AllPrintable(ps) && ps != [] && ps[0].Short?
    ensures Lines(PrintAll(ps)) == [ps[0].Line()] + Lines(PrintAll(ps[1..]))
  {
    var line, rest := ps[0].Line(), PrintAll(ps[1..]);
    assert '\n' !in line;
    SplitFirst(line, rest, '\n');
    var q := Split(rest, '\n');
    assert ([line] + q)[..|q|] == [line] + q[..|q| - 1];
  }

  // ---------------------------------------------------------------------------
  // Other lines
  // ---------------------------------------------------------------------------

  /** Whatever follows the first colon, up to the next one or the end. */
  lemma ColonValueExactly(before: string, v: string, after: string)
    requires ':' !in before && ':' !in v
    ensures ColonValue(before) == None
    ensures ColonValue(before + ":" + v + ":" + after) == Some(v)
    ensures ColonValue(before + ":" + v) == Some(v)
  {
    SplitWord(before, ':');
    LabelledValue(before, v);
    assert before + ":" + v + ":" + after == before + [':'] + (v + [':'] + after);
    SplitFirst(before, v + [':'] + after, ':');
    SplitFirst(v, after, ':');
  }

  lemma {:induction false} ParseLinesExactly(lines: seq<string>)
    ensures ParseLines(lines).Some? <==> forall i :: 0 <= i < |lines| ==> ParseLine(lines[i]).Some?
    ensures ParseLines(lines).Some? ==>
              |ParseLines(lines).value| == |lines| &&
              forall i :: 0 <= i < |lines| ==> ParseLine(lines[i]) == Some(ParseLines(lines).value[i])
  {
    if lines != [] {
      ParseLinesExactly(lines[1..]);
      assert forall i :: 1 <= i < |lines| ==> lines[1..][i - 1] == lines[i];
    }
  }

  /** When a line can be parsed: with two or three fields, or with six or more of which the
      third to the sixth have colons and the sixth holds a number that fits an int. */
  lemma ParsedFields(f: seq<string>)
    ensures ParseFields(f).Some? <==>
            |f| == 2 || |f| == 3 ||
            (|f| >= 6 && (forall i :: 2 <= i < 6 ==> ColonValue(f[i]).Some?) && Atoi(ColonValue(f[5]).value).Some?)
    ensures ParseFields(f).Some? ==>
              var d := ParseFields(f).value;
              d.serial == f[0] && d.state == f[1] && d.busAddress == "" && d.connectionType == Unknown
    ensures |f| == 2 || |f| == 3 ==> ParseFields(f) == Some(DeviceInfo(f[0], f[1], "", "", "", "", Unknown, -1))
  {
    assert |f| >= 6 ==> ((forall i :: 2 <= i < 6 ==> ColonValue(f[i]).Some?) <==>
                         ColonValue(f[2]).Some? && ColonValue(f[3]).Some? && ColonValue(f[4]).Some? && ColonValue(f[5]).Some?);
  }

  lemma CharactersExactly(c: char)
    ensures IsSpace(c) <==> c in {' ', '\t', '\n', 11 as char, 12 as char, '\r'}
    ensures IsDigit(c) <==> c in {'0', '1', '2', '3', '4', '5', '6', '7', '8', '9'}
  {
  }

  /** Text without a number counts as 0. */
  lemma AtoiOfText(space: string, sign: string, text: string)
    requires forall i :: 0 <= i < |space| ==> IsSpace(space[i])
    requires sign == "" || sign == "+" || sign == "-"
    requires text == "" || (!IsDigit(text[0]) && (sign == "" ==> !IsSpace(text[0]) && text[0] != '+' && text[0] != '-'))
    ensures Atoi(space + (sign + text)) == Some(0)
  {
    var t := sign + text;
    assert t != "" ==> t[0] == if sign == "" then text[0] else sign[0];
    SpaceThenRest(space, t);
    assert sign == "" ==> t == text;
    assert sign != "" ==> t[1..] == text;
    assert Digits(text) == "";
  }

  /** A long line with a USB path in its place: the path is taken for the product, the product
      for the model, the model for the device, and the device for the transport id; what comes
      after is not looked at. */
  lemma PathIsTakenForProduct(serial: string, state: string, path: string, product: string, model: string,
                              device: string, more: seq<string>)
    requires ':' !in path && ':' !in product && ':' !in model && ':' !in device
    ensures ParseFields([serial, state, "usb:" + path, "product:" + product, "model:" + model, "device:" + device] + more) ==
            match Atoi(device)
            case None => None
            case Some(n) => Some(DeviceInfo(serial, state, "", path, product, model, Unknown, n))
  {
    LabelledValue("usb", path);
    LabelledValue("product", product);
    LabelledValue("model", model);
    LabelledValue("device", device);
    assert "usb:" + path == "usb" + ":" + path;
    assert "product:" + product == "product" + ":" + product;
    assert "model:" + model == "model" + ":" + model;
    assert "device:" + device == "device" + ":" + device;
    var f := [serial, state, "usb:" + path, "product:" + product, "model:" + model, "device:" + device] + more;
    FirstFieldsDecide(f, path, product, model, device);
  }

  lemma FirstFieldsDecide(f: seq<string>, product: string, model: string, device: string, id: string)
    requires |f| >= 6
    requires ColonValue(f[2]) == Some(product) && ColonValue(f[3]) == Some(model)
    requires ColonValue(f[4]) == Some(device) && ColonValue(f[5]) == Some(id)
    ensures ParseFields(f) ==
            match Atoi(id)
            case Some(n) => Some(DeviceInfo(f[0], f[1], "", product, model, device, Unknown, n))
            case None => None
  {
  }

  /** A state with a space in it, such as the "no permissions" of the repository's own table
      of states, comes back cut at the space. */
  lemma StateIsCut(serial: string, a: string, b: string)
    requires ' ' !in serial && '\t' !in serial && ' ' !in a && a != "" && ' ' !in b && b != ""
    ensures ParseLine(Collapse(Short(serial, a + [' '] + b).Line())) == Some(BLANK.(serial := serial, state := a))
  {
    var state := a + [' '] + b;
    CollapseAtBreak(serial, '\t', state);
    CollapseFixed(serial);
    CollapseFixed(state);
    FirstTab(serial, state);
    SplitFirst(serial, state, ' ');
    SplitFirst(a, b, ' ');
    SplitWord(b, ' ');
  }
}
