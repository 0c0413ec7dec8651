/** The string helpers of src/utils.cpp: splitting at a delimiter, reading lines and
    collapsing runs of spaces. */
module Text {

  // ---------------------------------------------------------------------------
  // Splitting and joining
  // ---------------------------------------------------------------------------

  /** The pieces of s between the delimiters, empty ones included. */
  function Split(s: string, d: char): (pieces: seq<string>)
    ensures |pieces| >= 1
  {
    if s == "" then [""]
    else
      var rest := Split(s[1..], d);
      if s[0] == d then [""] + rest else [[s[0]] + rest[0]] + rest[1..]
  }

  function Join(pieces: seq<string>, d: char): string
    requires |pieces| >= 1
  {
    if |pieces| == 1 then pieces[0] else pieces[0] + [d] + Join(pieces[1..], d)
  }

  ghost predicate AllFree(pieces: seq<string>, d: char) {
    forall i :: 0 <= i < |pieces| ==> d !in pieces[i]
  }

  lemma {:induction false} SplitWord(word: string, d: char)
    requires d !in word
    ensures Split(word, d) == [word]
  {
    if word != "" {
      SplitWord(word[1..], d);
      assert [word[0]] + word[1..] == word;
    }
  }

  lemma {:induction false} SplitFirst(word: string, rest: string, d: char)
    requires d !in word
    ensures Split(word + [d] + rest, d) == [word] + Split(rest, d)
  {
    var s := word + [d] + rest;
    if word == "" {
      assert s[1..] == rest;
    } else {
      assert s[1..] == word[1..] + [d] + rest;
      SplitFirst(word[1..], rest, d);
      assert [word[0]] + word[1..] == word;
    }
  }

  lemma {:induction false} PiecesAreFree(s: string, d: char)
    ensures AllFree(Split(s, d), d)
  {
    if s != "" {
      PiecesAreFree(s[1..], d);
    }
  }

  /** There is one more piece than there are delimiters. */
  lemma {:induction false} PieceCount(s: string, d: char)
    ensures |Split(s, d)| == multiset(s)[d] + 1
  {
    if s != "" {
      PieceCount(s[1..], d);
      assert s == [s[0]] + s[1..];
    }
  }

  lemma {:induction false} JoinSplit(s: string, d: char)
    ensures Join(Split(s, d), d) == s
  {
    if s != "" {
      JoinSplit(s[1..], d);
      var rest := Split(s[1..], d);
      if s[0] == d {
        assert ([""] + rest)[1..] == rest;
        assert Join(Split(s, d), d) == [d] + s[1..];
      } else if |rest| == 1 {
        assert [s[0]] + s[1..] == s;
      } else {
        assert ([[s[0]] + rest[0]] + rest[1..])[1..] == rest[1..];
        var tail := Join(rest[1..], d);
        assert [s[0]] + (rest[0] + [d] + tail) == [s[0]] + rest[0] + [d] + tail;
      }
    }
  }

  lemma {:induction false} SplitJoin(pieces: seq<string>, d: char)
    requires |pieces| >= 1 && AllFree(pieces, d)
    ensures Split(Join(pieces, d), d) == pieces
  {
    if |pieces| == 1 {
      SplitWord(pieces[0], d);
    } else {
      assert AllFree(pieces[1..], d) by {
        forall i | 0 <= i < |pieces| - 1 ensures d !in pieces[1..][i] { assert pieces[1..][i] == pieces[i + 1]; }
      }
      SplitJoin(pieces[1..], d);
      SplitFirst(pieces[0], Join(pieces[1..], d), d);
    }
  }

  /** Splitting and joining are inverse: the split of s is the one non-empty list of
      delimiter-free pieces whose join is s. */
  lemma SplitExactly(s: string, pieces: seq<string>, d: char)
    ensures pieces == Split(s, d) <==> |pieces| >= 1 && AllFree(pieces, d) && Join(pieces, d) == s
  {
    PiecesAreFree(s, d);
    JoinSplit(s, d);
    if |pieces| >= 1 && AllFree(pieces, d) {
      SplitJoin(pieces, d);
    }
  }

  /** Two lists of pieces put together: the last of p and the first of q grow into one. */
  function Glue(p: seq<string>, q: seq<string>): seq<string>
    requires |p| >= 1 && |q| >= 1
  {
    if |p| == 1 then [p[0] + q[0]] + q[1..] else [p[0]] + Glue(p[1..], q)
  }

  lemma {:induction false} SplitConcat(a: string, b: string, d: char)
    ensures Split(a + b, d) == Glue(Split(a, d), Split(b, d))
  {
    var p, q := Split(a, d), Split(b, d);
    if a == "" {
      assert a + b == b;
      assert "" + q[0] == q[0];
    } else {
      assert (a + b)[1..] == a[1..] + b;
      SplitConcat(a[1..], b, d);
      var p1 := Split(a[1..], d);
      if a[0] == d {
        assert p[1..] == p1;
      } else {
        assert p[1..] == p1[1..];
        assert [a[0]] + (p1[0] + q[0]) == [a[0]] + p1[0] + q[0];
      }
    }
  }

  lemma {:induction false} LastPieceEmpty(s: string, d: char)
    ensures var p := Split(s, d);
            p[|p| - 1] == "" <==> s == "" || s[|s| - 1] == d
  {
    if s != "" {
      LastPieceEmpty(s[1..], d);
      if |s| > 1 {
        assert s[1..][|s| - 2] == s[|s| - 1];
      }
    }
  }

  /** One std::getline: reads up to the delimiter, which it swallows, or to the end of the
      stream, which it notes. */
  method GetLine(s: string, pos: nat, d: char) returns (word: string, next: nat, eof: bool)
    requires pos <= |s|
    ensures pos <= next <= |s| && d !in word
    ensures eof ==> next == |s| && word == s[pos..]
    ensures !eof ==> s[pos..] == word + [d] + s[next..] && next > pos
  {
    word, next, eof := "", pos, true;
    while next < |s|
      invariant pos <= next <= |s| && d !in word && eof
      invariant word == s[pos..next]
    {
      if s[next] == d {
        assert s[pos..] == s[pos..next] + [s[next]] + s[next + 1..];
        next := next + 1;
        return word, next, false;
      }
      word := word + [s[next]];
      next := next + 1;
    }
  }

  method StringSplit(str: string, delimiter: char) returns (res: seq<string>)
    ensures res == Split(str, delimiter)
  {
    res := [];
    var pos, eof := 0, false;
    while !eof
      invariant pos <= |str|
      invariant eof ==> res == Split(str, delimiter)
      invariant !eof ==> res + Split(str[pos..], delimiter) == Split(str, delimiter)
      decreases !eof, |str| - pos
    {
      var word, next, end := GetLine(str, pos, delimiter);
      if end {
        SplitWord(word, delimiter);
      } else {
        SplitFirst(word, str[next..], delimiter);
        assert res + ([word] + Split(str[next..], delimiter)) == res + [word] + Split(str[next..], delimiter);
      }
      res := res + [word];
      pos, eof := next, end;
    }
  }

  // ---------------------------------------------------------------------------
  // Lines
  // ---------------------------------------------------------------------------

  /** Every piece but the last: the text after the last newline is dropped. */
  function Lines(buf: string): seq<string> {
    var p := Split(buf, '\n');
    p[..|p| - 1]
  }

  method GetLinesFromBuf(lines: seq<string>, buf: string) returns (all: seq<string>)
    ensures all == lines + Lines(buf)
  {
    var tmp := StringSplit(buf, '\n');
    tmp := tmp[..|tmp| - 1];
    all := lines;
    for i := 0 to |tmp|
      invariant all == lines + tmp[..i]
    {
      all := all + [tmp[i]];
    }
  }

  function ButLast(p: seq<string>): seq<string>
    requires |p| >= 1
  {
    p[..|p| - 1]
  }

  lemma ButLastAfter(x: string, p: seq<string>)
    requires |p| >= 1
    ensures ButLast([x] + p) == [x] + ButLast(p)
  {
  }

  lemma {:induction false} GlueButLast(p: seq<string>, q: seq<string>)
    requires |p| >= 1 && |q| >= 1
    ensures ButLast(Glue(p, q)) == ButLast(p) + ButLast(q) <==> p[|p| - 1] == "" || |q| == 1
  {
    if |p| > 1 {
      GlueButLast(p[1..], q);
      var g := Glue(p[1..], q);
      ButLastAfter(p[0], g);
      ButLastAfter(p[0], p[1..]);
      assert p == [p[0]] + p[1..];
      assert [p[0]] + ButLast(p[1..]) + ButLast(q) == [p[0]] + (ButLast(p[1..]) + ButLast(q));
      SameRest(p[0], ButLast(g), ButLast(p[1..]) + ButLast(q));
    } else {
      GlueOne(p[0], q);
    }
  }

  lemma GlueOne(x: string, q: seq<string>)
    requires |q| >= 1
    ensures ButLast([x + q[0]] + q[1..]) == [] + ButLast(q) <==> x == "" || |q| == 1
  {
    var left, right := ButLast([x + q[0]] + q[1..]), ButLast(q);
    assert |left| == |right|;
    assert forall i :: 1 <= i < |left| ==> left[i] == right[i];
    if |q| > 1 {
      assert left[0] == x + q[0] && right[0] == q[0];
      assert |x + q[0]| == |x| + |q[0]|;
      assert x == "" ==> x + q[0] == q[0];
    }
  }

  lemma SameRest(x: string, a: seq<string>, b: seq<string>)
    ensures [x] + a == [x] + b <==> a == b
  {
    assert ([x] + a)[1..] == a && ([x] + b)[1..] == b;
  }

  /** Reading two buffers one after the other gives the lines of their concatenation exactly
      when the first ends at a line break or the second has none. */
  lemma LinesOfTwoBuffers(a: string, b: string)
    ensures Lines(a + b) == Lines(a) + Lines(b) <==>
            a == "" || a[|a| - 1] == '\n' || '\n' !in b
  {
    SplitConcat(a, b, '\n');
    GlueButLast(Split(a, '\n'), Split(b, '\n'));
    LastPieceEmpty(a, '\n');
    PieceCount(b, '\n');
  }

  /** A newline-terminated list of newline-free lines is read back line by line. */
  lemma {:induction false} LinesOfPrinted(lines: seq<string>)
    requires AllFree(lines, '\n')
    ensures Lines(Concat(Terminated(lines))) == lines
  {
    if lines != [] {
      var t := Terminated(lines);
      assert t[1..] == Terminated(lines[1..]);
      assert AllFree(lines[1..], '\n') by {
        forall i | 0 <= i < |lines| - 1 ensures '\n' !in lines[1..][i] { assert lines[1..][i] == lines[i + 1]; }
      }
      LinesOfPrinted(lines[1..]);
      var rest := Concat(t[1..]);
      assert Concat(t) == lines[0] + ['\n'] + rest;
      SplitFirst(lines[0], rest, '\n');
      var q := Split(rest, '\n');
      assert ([lines[0]] + q)[..|q|] == [lines[0]] + q[..|q| - 1];
    }
  }

  /** And text after the last newline is dropped. */
  lemma LinesDropTail(lines: seq<string>, tail: string)
    requires AllFree(lines, '\n') && '\n' !in tail
    ensures Lines(Concat(Terminated(lines)) + tail) == lines
  {
    var s := Concat(Terminated(lines));
    LinesOfTwoBuffers(s, tail);
    LinesOfPrinted(lines);
    SplitWord(tail, '\n');
  }

  function Terminated(lines: seq<string>): seq<string> {
    seq(|lines|, i requires 0 <= i < |lines| => lines[i] + ['\n'])
  }

  function Concat(parts: seq<string>): string {
    if parts == [] then "" else parts[0] + Concat(parts[1..])
  }

  lemma ConcatOne(s: string)
    ensures Concat([s]) == s
  {
    assert [s][1..] == [] && Concat([]) == "";
    assert s + "" == s;
  }

  lemma {:induction false} ConcatOfTwo(a: seq<string>, b: seq<string>)
    ensures Concat(a + b) == Concat(a) + Concat(b)
  {
    if a == [] {
      assert a + b == b;
    } else {
      assert (a + b)[1..] == a[1..] + b;
      ConcatOfTwo(a[1..], b);
    }
  }

  // ---------------------------------------------------------------------------
  // Collapsing spaces
  // ---------------------------------------------------------------------------

  /** Every run of spaces shortened to one. */
  function Collapse(s: string): string {
    if |s| < 2 then s
    else if s[0] == ' ' && s[1] == ' ' then Collapse(s[1..])
    else [s[0]] + Collapse(s[1..])
  }

  predicate NoAdjacentSpaces(s: string) {
    forall i :: 0 < i < |s| ==> !(s[i - 1] == ' ' && s[i] == ' ')
  }

  lemma {:induction false} CollapseEnds(s: string)
    requires s != ""
    ensures var r := Collapse(s);
            r != "" && r[0] == s[0] && r[|r| - 1] == s[|s| - 1]
  {
    if |s| > 1 {
      CollapseEnds(s[1..]);
    }
  }

  lemma {:induction false} CollapseAppend(s: string, c: char)
    ensures Collapse(s + [c]) ==
            if s != "" && s[|s| - 1] == ' ' && c == ' ' then Collapse(s) else Collapse(s) + [c]
  {
    if |s| > 1 {
      assert (s + [c])[1..] == s[1..] + [c];
      CollapseAppend(s[1..], c);
    } else if |s| == 1 {
      assert (s + [c])[1..] == [c];
      assert s + [c] == [s[0], c];
    }
  }

  /** std::unique over the string's own storage, then erase of the tail: the write position
      never passes the read position. */
  method UniqueSpacesInPlace(a: array<char>) returns (len: nat)
    modifies a
    ensures len <= a.Length
    ensures a[..len] == Collapse(old(a[..]))
  {
    if a.Length == 0 {
      return 0;
    }
    ghost var s := a[..];
    var dest, i := 0, 1;
    assert s[..1] == [s[0]];
    while i < a.Length
      invariant 0 <= dest < i <= a.Length
      invariant a[..dest + 1] == Collapse(s[..i])
      invariant forall k :: i <= k < a.Length ==> a[k] == s[k]
    {
      assert s[..i + 1] == s[..i] + [s[i]];
      CollapseAppend(s[..i], s[i]);
      CollapseEnds(s[..i]);
      assert a[dest] == a[..dest + 1][dest] == s[i - 1];
      if !(a[dest] == a[i] && a[dest] == ' ') {
        dest := dest + 1;
        a[dest] := a[i];
      }
      i := i + 1;
    }
    assert s[..i] == s;
    len := dest + 1;
  }

  method UniqueSpaces(str: string) returns (res: string)
    ensures res == Collapse(str)
  {
    var a := new char[|str|](i requires 0 <= i < |str| => str[i]);
    assert a[..] == str;
    var len := UniqueSpacesInPlace(a);
    res := a[..len];
  }

  lemma {:induction false} CollapseConcat(a: string, b: string)
    ensures Collapse(Collapse(a) + b) == Collapse(a + b)
    decreases |b|
  {
    if b == "" {
      assert a + b == a && Collapse(a) + b == Collapse(a);
      CollapseIdempotent(a);
    } else {
      var b0, c := b[..|b| - 1], b[|b| - 1];
      assert b == b0 + [c];
      assert a + b == (a + b0) + [c] && Collapse(a) + b == (Collapse(a) + b0) + [c];
      CollapseConcat(a, b0);
      CollapseAppend(a + b0, c);
      CollapseAppend(Collapse(a) + b0, c);
      if b0 == "" && a != "" {
        CollapseEnds(a);
      }
    }
  }

  lemma {:induction false} CollapseNoAdjacent(s: string)
    ensures NoAdjacentSpaces(Collapse(s))
  {
    if |s| > 1 {
      CollapseNoAdjacent(s[1..]);
      CollapseEnds(s[1..]);
    }
  }

  lemma {:induction false} CollapseFixed(s: string)
    requires NoAdjacentSpaces(s)
    ensures Collapse(s) == s
  {
    if |s| > 1 {
      CollapseFixed(s[1..]);
    }
  }

  lemma {:induction false} CollapseIdempotent(s: string)
    ensures Collapse(Collapse(s)) == Collapse(s)
  {
    CollapseNoAdjacent(s);
    CollapseFixed(Collapse(s));
  }

  /** Collapsing after each appended piece, as the reply callback does. */
  function CollapseEach(acc: string, parts: seq<string>): string
    decreases |parts|
  {
    if parts == [] then acc else CollapseEach(Collapse(acc + parts[0]), parts[1..])
  }

  /** Collapsing after every piece is the same as collapsing once at the end. */
  lemma {:induction false} CollapseEachIsCollapseOnce(acc: string, parts: seq<string>)
    requires parts != []
    ensures CollapseEach(acc, parts) == Collapse(acc + Concat(parts))
    decreases |parts|
  {
    var next := Collapse(acc + parts[0]);
    var rest := Concat(parts[1..]);
    assert acc + Concat(parts) == acc + parts[0] + rest;
    if |parts| == 1 {
      assert rest == "" && acc + parts[0] + rest == acc + parts[0];
    } else {
      CollapseEachIsCollapseOnce(next, parts[1..]);
      CollapseConcat(acc + parts[0], rest);
    }
  }

  lemma CollapseBreakFirst(c: char, b: string)
    requires c != ' '
    ensures Collapse([c] + b) == [c] + Collapse(b)
  {
    assert ([c] + b)[1..] == b;
    if b == "" {
      assert [c] + b == [c];
    }
  }

  /** A character other than a space separates what is collapsed before and after it. */
  lemma {:induction false} CollapseAtBreak(a: string, c: char, b: string)
    requires c != ' '
    ensures Collapse(a + [c] + b) == Collapse(a) + [c] + Collapse(b)
  {
    var s := a + [c] + b;
    if a == "" {
      CollapseBreakFirst(c, b);
      assert s == [c] + b;
    } else if |a| == 1 {
      CollapseBreakFirst(c, b);
      assert s[1..] == [c] + b && s[1] == c;
      assert Collapse(s) == [a[0]] + Collapse(s[1..]);
      assert a == [a[0]];
    } else {
      assert s[1..] == a[1..] + [c] + b && s[1] == a[1];
      CollapseAtBreak(a[1..], c, b);
      assert [a[0]] + (Collapse(a[1..]) + [c] + Collapse(b)) == [a[0]] + Collapse(a[1..]) + [c] + Collapse(b);
    }
  }

  // ---------------------------------------------------------------------------
  // What collapsing keeps
  // ---------------------------------------------------------------------------

  function NonEmpty(pieces: seq<string>): seq<string> {
    if pieces == [] then []
    else (if pieces[0] == "" then [] else [pieces[0]]) + NonEmpty(pieces[1..])
  }

  /** The non-empty words between spaces. */
  function Tokens(s: string): seq<string> {
    NonEmpty(Split(s, ' '))
  }

  lemma {:induction false} CollapseKeepsPieces(s: string)
    ensures var p, q := Split(s, ' '), Split(Collapse(s), ' ');
            p[0] == q[0] && NonEmpty(p[1..]) == NonEmpty(q[1..])
  {
    if |s| > 1 {
      CollapseKeepsPieces(s[1..]);
      var r := Collapse(s[1..]);
      var p1, q1 := Split(s[1..], ' '), Split(r, ' ');
      if s[0] == ' ' && s[1] == ' ' {
        assert p1 == [p1[0]] + p1[1..] && q1 == [q1[0]] + q1[1..];
        assert ([""] + p1)[1..] == p1;
      } else {
        assert ([s[0]] + r)[1..] == r;
        if s[0] == ' ' {
          assert ([""] + p1)[1..] == p1 && ([""] + q1)[1..] == q1;
        } else {
          assert ([[s[0]] + p1[0]] + p1[1..])[1..] == p1[1..];
          assert ([[s[0]] + q1[0]] + q1[1..])[1..] == q1[1..];
        }
      }
    }
  }

  lemma CollapseKeepsTokens(s: string)
    ensures Tokens(Collapse(s)) == Tokens(s)
  {
    CollapseKeepsPieces(s);
  }

  // A string without adjacent spaces is fixed by its tokens and by whether it starts and
  // ends with a space, so the collapsed string is the only one with these properties.

  predicate SameEnds(s: string, r: string) {
    if s == "" || r == "" then s == r
    else (s[0] == ' ' <==> r[0] == ' ') && (s[|s| - 1] == ' ' <==> r[|r| - 1] == ' ')
  }

  lemma {:induction false} FirstPieceEmpty(s: string)
    ensures Split(s, ' ')[0] == "" <==> s == "" || s[0] == ' '
  {
  }

  lemma {:induction false} InnerPieces(s: string, i: nat)
    requires NoAdjacentSpaces(s) && 0 < i < |Split(s, ' ')| - 1
    ensures Split(s, ' ')[i] != ""
    decreases s
  {
    if s[0] != ' ' {
      InnerPieces(s[1..], i);
    } else if i == 1 {
      FirstPieceEmpty(s[1..]);
    } else {
      InnerPieces(s[1..], i - 1);
    }
  }

  lemma {:induction false} NonEmptyInside(p: seq<string>)
    requires |p| >= 1 && forall i :: 0 <= i < |p| - 1 ==> p[i] != ""
    ensures p == NonEmpty(p) + if p[|p| - 1] == "" then [""] else []
  {
    if |p| > 1 {
      NonEmptyInside(p[1..]);
    }
  }

  lemma {:induction false} PiecesFromTokens(s: string)
    requires s != "" && NoAdjacentSpaces(s)
    ensures Split(s, ' ') == (if s[0] == ' ' then [""] else []) + Tokens(s)
                             + (if s[|s| - 1] == ' ' then [""] else [])
  {
    var p := Split(s, ' ');
    FirstPieceEmpty(s);
    LastPieceEmpty(s, ' ');
    forall i | 0 < i < |p| - 1 ensures p[i] != "" { InnerPieces(s, i); }
    if p[0] == "" {
      PieceCount(s, ' ');
      assert s[0] in multiset(s) && |p| > 1;
      LeadingEmpty(p);
    } else {
      NonEmptyInside(p);
      assert p == [] + p;
    }
  }

  lemma LeadingEmpty(p: seq<string>)
    requires |p| > 1 && p[0] == "" && forall i :: 0 < i < |p| - 1 ==> p[i] != ""
    ensures p == [""] + NonEmpty(p) + if p[|p| - 1] == "" then [""] else []
  {
    NonEmptyInside(p[1..]);
    assert p == [""] + p[1..];
  }

  /** r is s with its spaces collapsed exactly when r has no adjacent spaces, the same words
      in the same order, and a space at either end where s has one. */
  lemma CollapseExactly(s: string, r: string)
    ensures r == Collapse(s) <==> NoAdjacentSpaces(r) && Tokens(r) == Tokens(s) && SameEnds(s, r)
  {
    var c := Collapse(s);
    CollapseNoAdjacent(s);
    CollapseKeepsTokens(s);
    if s != "" {
      CollapseEnds(s);
      if r != "" && NoAdjacentSpaces(r) && Tokens(r) == Tokens(s) && SameEnds(s, r) {
        PiecesFromTokens(c);
        PiecesFromTokens(r);
        JoinSplit(c, ' ');
        JoinSplit(r, ' ');
      }
    }
  }
}
