/** Parsing a printed response header gives it back. */
module HttpHeaderProofs {
  import opened HttpHeaderModel

  // ---- Trimming. ----

  lemma TrimmedStays(s: string)
    requires IsTrimmed(s)
    ensures Trimmed(s) == s && TrimLeft(s) == s && TrimRight(s) == s
  {
  }

  lemma {:induction false} TrimRightAppend(a: string, b: string)
    ensures TrimRight(a + b) == if TrimRight(b) == "" then TrimRight(a) else a + TrimRight(b)
    decreases |b|
  {
    if b == "" {
      assert a + b == a;
    } else {
      var n := |b| - 1;
      assert (a + b)[..|a + b| - 1] == a + b[..n];
      TrimRightAppend(a, b[..n]);
    }
  }

  lemma TrimmedSpace(s: string)
    requires IsTrimmed(s)
    ensures Trimmed(" " + s) == s
  {
    assert (" " + s)[1..] == s;
    TrimmedStays(s);
  }

  // ---- Numbers. ----

  lemma {:induction false} DigitsHaveValue(n: nat)
    ensures DigitsValue(Digits(n)) == n
  {
    if n >= 10 {
      DigitsHaveValue(n / 10);
      assert Digits(n)[..|Digits(n)| - 1] == Digits(n / 10);
    } else {
      assert Digits(n)[..0] == "";
    }
  }

  lemma NumberIsRead(n: nat)
    requires n <= 0x7FFF_FFFF
    ensures ToInt(Digits(n)) == n
  {
    DigitsHaveValue(n);
    TrimmedStays(Digits(n));
  }

  // ---- The status line. ----

  lemma {:induction false} SingleStays(s: string)
    requires Single(s)
    ensures Collapse(s) == s
    decreases |s|
  {
    if s != "" {
      var rest := s[1..];
      forall i | 0 <= i < |rest| && IsSpace(rest[i]) ensures rest[i] == ' ' && i + 1 < |rest| && !IsSpace(rest[i + 1]) {
        assert s[i + 1] == rest[i];
      }
      SingleStays(rest);
      if IsSpace(s[0]) {
        assert !IsSpace(rest[0]);
        assert TrimLeft(rest) == rest;
      }
    }
  }

  lemma {:induction false} IndexIs(s: string, c: char, from: nat, i: nat)
    requires from <= i < |s| && s[i] == c && c !in s[from..i]
    ensures IndexOf(s, c, from) == i
    decreases i - from
  {
    if from < i {
      assert s[from] == s[from..i][0];
      assert s[from..i][1..] == s[from + 1..i];
      IndexIs(s, c, from + 1, i);
    }
  }

  lemma {:induction false} IndexIsNone(s: string, c: char, from: nat)
    requires from <= |s| && c !in s[from..]
    ensures IndexOf(s, c, from) == -1
    decreases |s| - from
  {
    if from < |s| {
      assert s[from] == s[from..][0];
      assert s[from..][1..] == s[from + 1..];
      IndexIsNone(s, c, from + 1);
    }
  }

  /** The status line up to the code. */
  function Start(h: Header): string
    requires 0 <= h.majVer <= 9 && 0 <= h.minVer <= 9 && h.statCode >= 0
  {
    "HTTP/" + Digits(h.majVer) + "." + Digits(h.minVer) + " " + Digits(h.statCode)
  }

  lemma StartIs(h: Header)
    requires 0 <= h.majVer <= 9 && 0 <= h.minVer <= 9 && h.statCode >= 0
    ensures var s := Start(h);
            && |s| == 9 + |Digits(h.statCode)| && HasVersion(s) && s[9..] == Digits(h.statCode)
            && DigitValue(s[5]) == h.majVer && DigitValue(s[7]) == h.minVer
            && forall i | 0 <= i < |s| :: (i == 8 && s[i] == ' ') || !IsSpace(s[i])
  {
  }

  lemma StatusFrom(h: Header, was: Header, line: string, l: string)
    requires WellFormed(h) && was.valid && Simplified(line) == l
    requires l == Start(h) + if h.reasonPhr == "" then "" else " " + h.reasonPhr
    ensures ParseStatus(was, line) == h.(values := was.values)
  {
    hide Digits, ToInt, Simplified, Start;
    var s, r := Start(h), h.reasonPhr;
    StartIs(h);
    NumberIsRead(h.statCode);
    NoSpaceBehind(s);
    assert l[..5] == s[..5] && l[..|s|] == s;
    assert l[9..|s|] == s[9..];
    if r == "" {
      assert l == s;
      IndexIsNone(s, ' ', 9);
    } else {
      IndexIs(l, ' ', 9, |s|);
      assert l[|s| + 1..] == r;
    }
  }

  /** Both with a reason and, once the line has lost its last space, without. */
  lemma StatusIsRead(h: Header, was: Header, line: string)
    requires WellFormed(h) && was.valid
    requires line == StatusLine(h) || (h.reasonPhr == "" && line == Start(h))
    ensures ParseStatus(was, line) == h.(values := was.values)
  {
    hide Digits, ParseStatus, Collapse;
    var s, r := Start(h), h.reasonPhr;
    StartIs(h);
    if r == "" {
      assert StatusLine(h) == s + " ";
      TrimRightAppend(s, " ");
      OneSpace();
      TrimmedStays(s);
      LeftStays(line);
      SingleStays(s);
      StatusFrom(h, was, line, s);
    } else {
      var l := s + " " + r;
      assert StatusLine(h) == l;
      forall i | 0 <= i < |l| && IsSpace(l[i]) ensures l[i] == ' ' && i + 1 < |l| && !IsSpace(l[i + 1]) {
        if i > |s| {
          assert l[i] == r[i - |s| - 1];
        }
      }
      TrimmedStays(l);
      SingleStays(l);
      assert l == s + (" " + r);
      StatusFrom(h, was, line, l);
    }
  }

  lemma OneSpace()
    ensures TrimRight(" ") == ""
  {
    assert " "[..0] == "";
  }

  lemma LeftStays(s: string)
    requires s != "" && !IsSpace(s[0])
    ensures TrimLeft(s) == s
  {
  }

  lemma NoSpaceBehind(s: string)
    requires |s| >= 9 && forall i | 0 <= i < |s| :: (i == 8 && s[i] == ' ') || !IsSpace(s[i])
    ensures ' ' !in s[9..]
  {
    forall i | 0 <= i < |s[9..]| ensures s[9..][i] != ' ' {
      assert s[9..][i] == s[i + 9];
    }
  }

  // ---- Field lines. ----

  /** The line of a field, as it is printed or, at the end of the header, without the space behind the colon. */
  predicate IsLineOf(line: string, f: Field) {
    line == FieldLine(f) || (f.1 == "" && line == f.0 + ":")
  }

  lemma FieldIsRead(h: Header, f: Field, line: string)
    requires WellFormedField(f) && IsLineOf(line, f)
    ensures ParseField(h, line) == h.(values := h.values + [f])
  {
    var i := |f.0|;
    assert line[..i] == f.0;
    assert line[0..i] == f.0;
    IndexIs(line, ':', 0, i);
    TrimmedStays(f.0);
    if line == FieldLine(f) {
      assert line[i + 1..] == " " + f.1;
      TrimmedSpace(f.1);
    } else {
      assert line[i + 1..] == "";
    }
  }

  predicate AreLinesOf(lines: seq<string>, fs: seq<Field>) {
    |lines| == |fs| && forall i | 0 <= i < |fs| :: IsLineOf(lines[i], fs[i])
  }

  lemma {:induction false} FieldsAreRead(h: Header, fs: seq<Field>, lines: seq<string>)
    requires h.valid && AreLinesOf(lines, fs) && forall f | f in fs :: WellFormedField(f)
    ensures ParseFields(h, lines) == h.(values := h.values + fs)
    decreases |fs|
  {
    hide ParseField, WellFormedField, IsLineOf;
    if fs != [] {
      FieldIsRead(h, fs[0], lines[0]);
      FieldsAreRead(h.(values := h.values + [fs[0]]), fs[1..], lines[1..]);
      assert h.values + [fs[0]] + fs[1..] == h.values + fs;
    }
  }

  // ---- Splitting. ----

  function Joined(lines: seq<string>): string {
    if lines == [] then "" else if |lines| == 1 then lines[0] else lines[0] + CR_LF + Joined(lines[1..])
  }

  lemma {:induction false} SplitText(text: string, rest: string, part: string)
    requires '\r' !in text
    ensures SplitCrLf(text + rest, part) == SplitCrLf(rest, part + text)
    decreases |text|
  {
    if text == "" {
      assert text + rest == rest && part + text == part;
    } else {
      assert (text + rest)[1..] == text[1..] + rest;
      assert (text + rest)[0] == text[0] != '\r';
      assert |text + rest| >= 2 ==> (text + rest)[..2][0] == text[0];
      SplitText(text[1..], rest, part + [text[0]]);
      assert part + [text[0]] + text[1..] == part + text;
    }
  }

  lemma {:induction false} LinesAreSplit(lines: seq<string>)
    requires lines != [] && forall l | l in lines :: '\r' !in l
    ensures SplitCrLf(Joined(lines), "") == lines
  {
    var first := lines[0];
    assert "" + first == first;
    if |lines| == 1 {
      assert first + "" == first;
      SplitText(first, "", "");
    } else {
      var rest := Joined(lines[1..]);
      assert Joined(lines) == first + (CR_LF + rest);
      SplitText(first, CR_LF + rest, "");
      assert (CR_LF + rest)[..2] == CR_LF && (CR_LF + rest)[2..] == rest;
      LinesAreSplit(lines[1..]);
      assert lines == [first] + lines[1..];
    }
  }

  lemma {:induction false} NoneRemoved(lst: seq<string>)
    requires "" !in lst
    ensures RemoveEmpty(lst) == lst
  {
    if lst != [] {
      NoneRemoved(lst[1..]);
    }
  }

  lemma {:induction false} NoneUnfolded(lst: seq<string>, lines: seq<string>)
    requires forall l | l in lst :: l != "" && !IsSpace(l[0])
    ensures Unfold(lst, lines) == lines + lst
    decreases |lst|
  {
    if lst != [] {
      assert forall l | l in lst[1..] :: l in lst;
      NoneUnfolded(lst[1..], lines + [lst[0]]);
      assert lines + [lst[0]] + lst[1..] == lines + lst;
    }
  }

  // ---- The printed text. ----

  /** Each field line, the last one without white space at its end. */
  function Lines(fs: seq<Field>): seq<string> {
    if fs == [] then [] else if |fs| == 1 then [TrimRight(FieldLine(fs[0]))] else [FieldLine(fs[0])] + Lines(fs[1..])
  }

  lemma LastLine(f: Field)
    requires WellFormedField(f)
    ensures IsLineOf(TrimRight(FieldLine(f)), f) && TrimRight(FieldLine(f)) != ""
  {
    hide TrimRight, OnOneLine;
    var l := FieldLine(f);
    if f.1 == "" {
      assert l == f.0 + ":" + " ";
      TrimRightAppend(f.0 + ":", " ");
      OneSpace();
      NothingTrimmed(f.0 + ":");
    } else {
      assert l[|l| - 1] == f.1[|f.1| - 1];
      NothingTrimmed(l);
    }
  }

  lemma NothingTrimmed(s: string)
    requires s != "" && !IsSpace(s[|s| - 1])
    ensures TrimRight(s) == s
  {
  }

  lemma ALine(line: string, f: Field)
    requires WellFormedField(f) && IsLineOf(line, f)
    ensures line != "" && !IsSpace(line[0]) && OnOneLine(line)
  {
    assert f.0 != "" ==> line[0] == f.0[0];
  }

  lemma {:induction false} LinesAreLines(fs: seq<Field>)
    requires forall f | f in fs :: WellFormedField(f)
    ensures AreLinesOf(Lines(fs), fs)
    ensures forall l | l in Lines(fs) :: l != "" && !IsSpace(l[0]) && OnOneLine(l)
  {
    hide WellFormedField, IsLineOf, OnOneLine, FieldLine;
    if fs != [] {
      LastLine(fs[0]);
      LineOf(fs[0]);
      ALine(Lines(fs)[0], fs[0]);
      if |fs| > 1 {
        LinesAreLines(fs[1..]);
        assert forall l :: l in Lines(fs) <==> l == FieldLine(fs[0]) || l in Lines(fs[1..]);
      }
    }
  }

  lemma LineOf(f: Field)
    ensures IsLineOf(FieldLine(f), f)
  {
  }

  /** What is behind the status line, without the white space at the end. */
  lemma {:induction false} FieldsAreTrimmed(fs: seq<Field>)
    requires fs != [] && forall f | f in fs :: WellFormedField(f)
    ensures TrimRight(PrintFields(fs) + CR_LF) == Joined(Lines(fs)) != ""
    decreases |fs|
  {
    hide WellFormedField, FieldLine, TrimRight;
    var f, rest := fs[0], fs[1..];
    LastLine(f);
    TwoLineEnds();
    if |fs| == 1 {
      assert PrintFields(rest) == "";
      assert PrintFields(fs) + CR_LF == FieldLine(f) + (CR_LF + CR_LF);
      TrimRightAppend(FieldLine(f), CR_LF + CR_LF);
    } else {
      FieldsAreTrimmed(rest);
      assert PrintFields(fs) + CR_LF == FieldLine(f) + CR_LF + (PrintFields(rest) + CR_LF);
      TrimRightAppend(FieldLine(f) + CR_LF, PrintFields(rest) + CR_LF);
      assert Lines(fs)[1..] == Lines(rest);
      assert |Lines(rest)| > 0 by { LinesAreLines(rest); }
    }
  }

  lemma TrimRightSpace(s: string, c: char)
    requires IsSpace(c)
    ensures TrimRight(s + [c]) == TrimRight(s)
  {
    assert (s + [c])[..|s|] == s;
  }

  lemma TwoLineEnds()
    ensures TrimRight(CR_LF + CR_LF) == "" && TrimRight(" " + (CR_LF + CR_LF)) == ""
  {
    OneSpace();
    TrimRightSpace("", '\r');
    TrimRightSpace("" + ['\r'], '\n');
    TrimRightSpace("" + ['\r'] + ['\n'], '\r');
    TrimRightSpace("" + ['\r'] + ['\n'] + ['\r'], '\n');
    assert CR_LF + CR_LF == "" + ['\r'] + ['\n'] + ['\r'] + ['\n'];
    TrimRightAppend(" ", CR_LF + CR_LF);
  }

  /** All lines of a header; the status line has lost a space at its end if nothing follows it. */
  function AllLines(h: Header): seq<string>
    requires WellFormed(h)
  {
    [if h.values == [] && h.reasonPhr == "" then Start(h) else StatusLine(h)] + Lines(h.values)
  }

  lemma StatusStarts(h: Header)
    requires WellFormed(h)
    ensures StatusLine(h) == Start(h) + " " + h.reasonPhr
    ensures |Start(h)| > 0 && Start(h)[0] == StatusLine(h)[0] == 'H'
    ensures OnOneLine(StatusLine(h)) && OnOneLine(Start(h))
    ensures TrimRight(Start(h)) == Start(h) && (h.reasonPhr != "" ==> TrimRight(StatusLine(h)) == StatusLine(h))
  {
    hide Digits;
    StartIs(h);
    TrimmedStays(Start(h));
    if h.reasonPhr != "" {
      TrimmedStays(StatusLine(h));
    }
  }

  lemma {:induction false} PrintIsTrimmed(h: Header)
    requires WellFormed(h)
    ensures Trimmed(Print(h)) == Joined(AllLines(h))
  {
    hide Digits, TrimRight, WellFormedField, StatusLine, Start;
    StatusStarts(h);
    var line, all := StatusLine(h), Print(h);
    assert all[0] == 'H';
    LeftStays(all);
    TwoLineEnds();
    if h.values != [] {
      assert all == line + CR_LF + (PrintFields(h.values) + CR_LF);
      FieldsAreTrimmed(h.values);
      LinesAreLines(h.values);
      TrimRightAppend(line + CR_LF, PrintFields(h.values) + CR_LF);
      assert AllLines(h)[1..] == Lines(h.values);
    } else if h.reasonPhr == "" {
      assert all == Start(h) + (" " + (CR_LF + CR_LF));
      TrimRightAppend(Start(h), " " + (CR_LF + CR_LF));
    } else {
      assert all == line + (CR_LF + CR_LF);
      TrimRightAppend(line, CR_LF + CR_LF);
    }
  }

  /** The first line end is a carriage return and a line feed. */
  lemma FirstLineEnd(line: string, rest: string)
    requires OnOneLine(line)
    ensures var s := line + CR_LF + rest;
            IndexOf(s, '\n', 0) == |line| + 1 && s[|line|] == '\r'
  {
    var s := line + CR_LF + rest;
    assert s[0..|line| + 1] == line + ['\r'];
    IndexIs(s, '\n', 0, |line| + 1);
  }

  lemma {:induction false} LinesAreFound(h: Header)
    requires WellFormed(h)
    ensures Unfold(RawLines(Print(h)), []) == AllLines(h)
  {
    hide Digits, StatusLine, Start, PrintFields, Joined, Lines, Trimmed;
    var lines := AllLines(h);
    PrintIsTrimmed(h);
    StatusStarts(h);
    LinesAreLines(h.values);
    assert forall l | l in lines :: l != "" && !IsSpace(l[0]) && OnOneLine(l);
    assert Print(h) == StatusLine(h) + CR_LF + (PrintFields(h.values) + CR_LF);
    FirstLineEnd(StatusLine(h), PrintFields(h.values) + CR_LF);
    LinesAreSplit(lines);
    NoneRemoved(lines);
    NoneUnfolded(lines, []);
  }

  /** Parsing a printed response header returns it: version, code, reason and all fields, in order. */
  lemma {:induction false} HeaderRoundTrip(h: Header)
    requires WellFormed(h)
    ensures Parse(Print(h)) == h
  {
    hide Digits, StatusLine, Start, Lines, Print, RawLines, Unfold, ParseStatus;
    LinesAreFound(h);
    LinesAreLines(h.values);
    var lines := AllLines(h);
    StatusIsRead(h, NEW_HEADER, lines[0]);
    assert lines[1..] == Lines(h.values);
    FieldsAreRead(h.(values := []), h.values, lines[1..]);
    assert [] + h.values == h.values;
  }
}
