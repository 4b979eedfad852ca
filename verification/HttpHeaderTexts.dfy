/** Which texts are headers, and what they say: line ends, folded lines, numbers and white space (qhttp.cpp). */
module HttpHeaderTexts {
  import opened HttpHeaderModel
  import opened HttpHeaderProofs

  // ---- Decimal numbers. ----

  const DECIMAL := "0123456789"

  /** s writes n, with any leading zeros. */
  predicate IsNumeral(s: string, n: nat) {
    if s == "" then n == 0 else s[|s| - 1] == DECIMAL[n % 10] && IsNumeral(s[..|s| - 1], n / 10)
  }

  lemma DigitIs(c: char, k: nat)
    requires k < 10
    ensures c == DECIMAL[k] <==> IsDigit(c) && DigitValue(c) == k
  {
    match k {
      case 0 => case 1 => case 2 => case 3 => case 4 => case 5 => case 6 => case 7 => case 8 => case 9 =>
    }
  }

  lemma {:induction false} NumeralIs(s: string, n: nat)
    ensures IsNumeral(s, n) <==> AllDigits(s) && DigitsValue(s) == n
  {
    hide IsDigit;
    if s != "" {
      var c, t := s[|s| - 1], s[..|s| - 1];
      DigitIs(c, n % 10);
      NumeralIs(t, n / 10);
      assert AllDigits(s) <==> AllDigits(t) && IsDigit(c);
      if AllDigits(s) {
        DigitBound(c);
        ValueIsPositive(t);
      }
    }
  }

  lemma DigitBound(c: char)
    requires IsDigit(c)
    ensures 0 <= DigitValue(c) < 10
  {
  }

  lemma {:induction false} ValueIsPositive(s: string)
    requires AllDigits(s)
    ensures DigitsValue(s) >= 0
  {
    if s != "" {
      ValueIsPositive(s[..|s| - 1]);
    }
  }

  /** Digits writes a number without leading zeros. */
  lemma {:induction false} DigitsWrite(n: nat)
    ensures IsNumeral(Digits(n), n) && (n > 0 ==> Digits(n)[0] != '0') && (n == 0 ==> Digits(n) == "0")
  {
    DigitsHaveValue(n);
    NumeralIs(Digits(n), n);
    NoLeadingZero(n);
  }

  lemma {:induction false} NoLeadingZero(n: nat)
    ensures n > 0 ==> Digits(n)[0] != '0'
  {
    if n >= 10 {
      NoLeadingZero(n / 10);
    }
  }

  predicate IsInt32(v: int) {
    -0x8000_0000 <= v <= 0x7FFF_FFFF
  }

  /** White space in Latin-1. */
  const WHITE_SPACE: set<int> := {9, 10, 11, 12, 13, 32, 0x85, 0xA0}

  predicate IsBlank(s: string) {
    forall c | c in s :: c as int in WHITE_SPACE
  }

  lemma BlankIsSpace(s: string)
    ensures IsBlank(s) <==> forall c | c in s :: IsSpace(c)
  {
    assert forall c: char :: c as int in WHITE_SPACE <==> IsSpace(c);
  }

  lemma {:induction false} TrimLeftBlank(blank: string, s: string)
    requires (forall c | c in blank :: IsSpace(c)) && (s == "" || !IsSpace(s[0]))
    ensures TrimLeft(blank + s) == s
  {
    if blank == "" {
      assert blank + s == s;
    } else {
      assert (blank + s)[1..] == blank[1..] + s;
      TrimLeftBlank(blank[1..], s);
    }
  }

  lemma {:induction false} TrimRightBlank(s: string, blank: string)
    requires (forall c | c in blank :: IsSpace(c)) && (s == "" || !IsSpace(s[|s| - 1]))
    ensures TrimRight(s + blank) == s
    decreases |blank|
  {
    if blank == "" {
      assert s + blank == s;
    } else {
      var n := |blank| - 1;
      assert (s + blank)[..|s + blank| - 1] == s + blank[..n];
      TrimRightBlank(s, blank[..n]);
    }
  }

  /** Exactly the white space around a text is trimmed. */
  lemma TrimmedIs(left: string, s: string, right: string)
    requires IsBlank(left) && IsBlank(right) && IsTrimmed(s)
    ensures Trimmed(left + s + right) == s
  {
    BlankIsSpace(left);
    BlankIsSpace(right);
    if s == "" {
      assert left + s + right == (left + right) + "";
      TrimLeftBlank(left + right, "");
    } else {
      assert left + s + right == left + (s + right);
      TrimLeftBlank(left, s + right);
      TrimRightBlank(s, right);
    }
  }

  /** A number with white space around it and a sign is read as what it stands for, if an int can hold that, and as zero otherwise. */
  lemma NumberWithSign(left: string, sign: string, digits: string, right: string, n: nat)
    requires IsBlank(left) && IsBlank(right) && (sign == "" || sign == "+" || sign == "-")
    requires digits != "" && IsNumeral(digits, n)
    ensures var v: int := if sign == "-" then 0 - n else n;
            ToInt(left + (sign + digits) + right) == if IsInt32(v) then v else 0
  {
    hide Trimmed, IsNumeral, DigitsValue;
    NumeralIs(digits, n);
    var s := sign + digits;
    assert s[|s| - 1] == digits[|digits| - 1];
    TrimmedIs(left, s, right);
    assert sign != "" ==> s[1..] == digits;
    assert sign == "" ==> s == digits;
  }

  // ---- White space between words. ----

  predicate IsWord(w: string) {
    w != "" && forall c | c in w :: c as int !in WHITE_SPACE
  }

  predicate IsGap(b: string) {
    b != "" && IsBlank(b)
  }

  /** Words with a gap behind each but the last. */
  function Spread(words: seq<string>, gaps: seq<string>): string
    requires |gaps| + 1 == |words|
  {
    if |words| == 1 then words[0] else words[0] + gaps[0] + Spread(words[1..], gaps[1..])
  }

  function Spaces(n: nat): (gaps: seq<string>)
    ensures |gaps| == n
  {
    seq(n, _ => " ")
  }

  predicate AreWords(words: seq<string>, gaps: seq<string>) {
    && |gaps| + 1 == |words| && (forall i | 0 <= i < |words| :: IsWord(words[i])) && (forall i | 0 <= i < |gaps| :: IsGap(gaps[i]))
  }

  lemma {:induction false} SpreadBegins(words: seq<string>, gaps: seq<string>)
    requires AreWords(words, gaps)
    ensures var s := Spread(words, gaps); s != "" && !IsSpace(s[0]) && !IsSpace(s[|s| - 1])
  {
    var w := words[0];
    assert IsWord(w);
    assert forall c: char :: c as int in WHITE_SPACE <==> IsSpace(c);
    assert w[0] in w && w[|w| - 1] in w;
    if |words| > 1 {
      SpreadBegins(words[1..], gaps[1..]);
    }
  }

  lemma {:induction false} CollapseWord(w: string, rest: string)
    requires forall c | c in w :: !IsSpace(c)
    ensures Collapse(w + rest) == w + Collapse(rest)
    decreases |w|
  {
    if w == "" {
      assert w + rest == rest;
    } else {
      assert (w + rest)[0] == w[0] && (w + rest)[1..] == w[1..] + rest;
      CollapseWord(w[1..], rest);
    }
  }

  lemma CollapseGap(gap: string, rest: string)
    requires gap != "" && (forall c | c in gap :: IsSpace(c)) && rest != "" && !IsSpace(rest[0])
    ensures Collapse(gap + rest) == " " + Collapse(rest)
  {
    assert (gap + rest)[0] == gap[0] && (gap + rest)[1..] == gap[1..] + rest;
    TrimLeftBlank(gap[1..], rest);
  }

  lemma {:induction false} CollapsedSpread(words: seq<string>, gaps: seq<string>)
    requires AreWords(words, gaps)
    ensures Collapse(Spread(words, gaps)) == Spread(words, Spaces(|gaps|))
    decreases |words|
  {
    hide Collapse;
    var w := words[0];
    assert IsWord(w);
    assert forall c: char :: c as int in WHITE_SPACE <==> IsSpace(c);
    if |words| == 1 {
      CollapseWord(w, "");
      assert Collapse("") == "" by { CollapseNone(); }
      assert w + "" == w;
    } else {
      var gap, rest := gaps[0], Spread(words[1..], gaps[1..]);
      assert IsGap(gap);
      SpreadBegins(words[1..], gaps[1..]);
      assert w + gap + rest == w + (gap + rest);
      CollapseWord(w, gap + rest);
      CollapseGap(gap, rest);
      CollapsedSpread(words[1..], gaps[1..]);
      assert Spaces(|gaps|)[1..] == Spaces(|gaps| - 1);
      var more := Spread(words[1..], Spaces(|gaps| - 1));
      assert w + (" " + more) == w + " " + more;
    }
  }

  lemma CollapseNone()
    ensures Collapse("") == ""
  {
  }

  /** Words with any white space between and around them are simplified to words with single spaces between them. */
  lemma {:induction false} SimplifiedWords(left: string, words: seq<string>, gaps: seq<string>, right: string)
    requires AreWords(words, gaps) && IsBlank(left) && IsBlank(right)
    ensures Simplified(left + Spread(words, gaps) + right) == Spread(words, Spaces(|gaps|))
  {
    hide Collapse, Trimmed, Spread;
    SpreadBegins(words, gaps);
    TrimmedIs(left, Spread(words, gaps), right);
    CollapsedSpread(words, gaps);
  }

  // ---- Fields. ----

  /** A line is split at its first colon, and the white space around both parts goes. */
  lemma FieldIsSplit(h: Header, name: string, value: string)
    requires ':' !in name
    ensures ParseField(h, name + ":" + value) == h.(values := h.values + [(Trimmed(name), Trimmed(value))])
  {
    hide Trimmed;
    var line := name + ":" + value;
    assert line[0..|name|] == name && line[..|name|] == name && line[|name| + 1..] == value;
    IndexIs(line, ':', 0, |name|);
  }

  /** Without a colon the header is invalid. */
  lemma NoField(h: Header, line: string)
    requires ':' !in line
    ensures ParseField(h, line) == h.(valid := false)
  {
    assert line[0..] == line;
    IndexIsNone(line, ':', 0);
  }

  // ---- The status line. ----

  /** "HTTP/m.n code reason", where only the first digit of the code has to be one. */
  function StatusText(m: nat, n: nat, code: string, reason: string): string
    requires m < 10 && n < 10
  {
    "HTTP/" + [DECIMAL[m]] + "." + [DECIMAL[n]] + " " + code + if reason == "" then "" else " " + reason
  }

  predicate IsStatus(m: nat, n: nat, code: string, reason: string) {
    m < 10 && n < 10 && code != "" && code[0] in DECIMAL && (forall c | c in code :: !IsSpace(c)) && IsSimple(reason)
  }

  lemma DecimalIsDigit(c: char)
    ensures c in DECIMAL <==> IsDigit(c)
  {
    if IsDigit(c) {
      DigitBound(c);
      DigitIs(c, DigitValue(c));
    }
    if c in DECIMAL {
      var k :| 0 <= k < 10 && DECIMAL[k] == c;
      DigitIs(c, k);
    }
  }

  /** The status line, however its white space is, tells version, code and reason. */
  lemma StatusIsTold(h: Header, line: string, m: nat, n: nat, code: string, reason: string)
    requires IsStatus(m, n, code, reason) && Simplified(line) == StatusText(m, n, code, reason)
    ensures ParseStatus(h, line) == h.(majVer := m, minVer := n, statCode := ToInt(code), reasonPhr := reason)
  {
    hide Simplified, ToInt, StatusText, HasVersion, IsSimple, IsDigit, DigitValue;
    var l := StatusText(m, n, code, reason);
    StatusParts(m, n, code, reason);
    CodeIsFound(m, n, code, reason);
  }

  lemma StatusParts(m: nat, n: nat, code: string, reason: string)
    requires IsStatus(m, n, code, reason)
    ensures var l := StatusText(m, n, code, reason);
            && |l| >= 10 && HasVersion(l) && DigitValue(l[5]) == m && DigitValue(l[7]) == n
  {
    hide IsDigit, DigitValue;
    var l := StatusText(m, n, code, reason);
    DigitIs(DECIMAL[m], m);
    DigitIs(DECIMAL[n], n);
    DecimalIsDigit(code[0]);
    assert l[..5] == "HTTP/" && l[5] == DECIMAL[m] && l[6] == '.' && l[7] == DECIMAL[n] && l[8] == ' ' && l[9] == code[0];
  }

  lemma CodeIsFound(m: nat, n: nat, code: string, reason: string)
    requires IsStatus(m, n, code, reason)
    ensures var l := StatusText(m, n, code, reason);
            |l| >= 10 && var pos := IndexOf(l, ' ', 9);
            if reason == "" then pos == -1 && l[9..] == code
            else pos == 9 + |code| && l[9..pos] == code && l[pos + 1..] == reason
  {
    var l, k := StatusText(m, n, code, reason), 9 + |code|;
    assert l[9..k] == code;
    NoBlankIn(code);
    if reason == "" {
      assert |l| == k && l[9..] == code;
      IndexIsNone(l, ' ', 9);
    } else {
      assert l[k] == ' ' && l[k + 1..] == reason;
      IndexIs(l, ' ', 9, k);
    }
  }

  lemma NoBlankIn(code: string)
    requires forall c | c in code :: !IsSpace(c)
    ensures ' ' !in code
  {
  }

  /** Any other first line makes the header invalid. */
  lemma {:induction false} OtherStatusIsInvalid(h: Header, line: string)
    requires h.valid && ParseStatus(h, line).valid
    ensures var l := Simplified(line);
            |l| >= 10 && l[..5] == "HTTP/" && l[5] in DECIMAL && l[6] == '.' && l[7] in DECIMAL && l[8] == ' ' && l[9] in DECIMAL
  {
    hide Simplified, ToInt;
    var l := Simplified(line);
    if |l| >= 10 {
      DecimalIsDigit(l[5]);
      DecimalIsDigit(l[7]);
      DecimalIsDigit(l[9]);
    }
  }

  // ---- Lines. ----

  function Eol(crlf: bool): string {
    if crlf then "\r\n" else "\n"
  }

  /** Every line with its end. */
  function Ended(lines: seq<string>, crlf: bool): string {
    if lines == [] then "" else lines[0] + Eol(crlf) + Ended(lines[1..], crlf)
  }

  /** The lines with line ends between them. */
  function Between(lines: seq<string>, crlf: bool): string
    requires lines != []
  {
    if |lines| == 1 then lines[0] else lines[0] + Eol(crlf) + Between(lines[1..], crlf)
  }

  predicate IsLine(l: string) {
    l != "" && '\r' !in l && '\n' !in l
  }

  /** The lines of a header: the first does not begin, and the last does not end with white space. */
  predicate AreLines(lines: seq<string>) {
    && lines != [] && (forall i | 0 <= i < |lines| :: IsLine(lines[i]))
    && !IsSpace(lines[0][0]) && !IsSpace(lines[|lines| - 1][|lines[|lines| - 1]| - 1])
  }

  lemma {:induction false} EndedIs(lines: seq<string>, crlf: bool)
    requires lines != []
    ensures Ended(lines, crlf) == Between(lines, crlf) + Eol(crlf)
  {
    if |lines| > 1 {
      EndedIs(lines[1..], crlf);
      var a, b, e := lines[0], Between(lines[1..], crlf), Eol(crlf);
      assert a + e + (b + e) == a + e + b + e;
    } else {
      assert lines[1..] == [];
      assert lines[0] + Eol(crlf) + "" == lines[0] + Eol(crlf);
    }
  }

  lemma {:induction false} BetweenEnds(lines: seq<string>, crlf: bool)
    requires lines != [] && forall i | 0 <= i < |lines| :: IsLine(lines[i])
    ensures var s, last := Between(lines, crlf), lines[|lines| - 1];
            s != "" && lines[0] != "" && last != "" && s[0] == lines[0][0] && s[|s| - 1] == last[|last| - 1]
  {
    assert IsLine(lines[0]);
    if |lines| > 1 {
      BetweenEnds(lines[1..], crlf);
    }
  }

  /** What is left of a text without the white space at its ends. */
  lemma {:induction false} TextIsTrimmed(lines: seq<string>, crlf: bool)
    requires AreLines(lines)
    ensures Trimmed(Ended(lines, crlf) + Eol(crlf)) == Between(lines, crlf)
  {
    hide Trimmed, Between, Ended;
    var s, e := Between(lines, crlf), Eol(crlf);
    EndedIs(lines, crlf);
    BetweenEnds(lines, crlf);
    assert Ended(lines, crlf) + e == "" + s + (e + e);
    TrimmedIs("", s, e + e);
  }

  lemma {:induction false} SplitLfText(text: string, rest: string, part: string)
    requires '\n' !in text
    ensures SplitLf(text + rest, part) == SplitLf(rest, part + text)
    decreases |text|
  {
    if text == "" {
      assert text + rest == rest && part + text == part;
    } else {
      assert (text + rest)[1..] == text[1..] + rest && (text + rest)[0] == text[0];
      SplitLfText(text[1..], rest, part + [text[0]]);
      assert part + [text[0]] + text[1..] == part + text;
    }
  }

  lemma {:induction false} LfLinesAreSplit(lines: seq<string>)
    requires lines != [] && forall l | l in lines :: '\n' !in l
    ensures SplitLf(Between(lines, false), "") == lines
  {
    var first := lines[0];
    assert "" + first == first;
    if |lines| == 1 {
      assert first + "" == first;
      SplitLfText(first, "", "");
    } else {
      var rest := Between(lines[1..], false);
      assert Between(lines, false) == first + ("\n" + rest);
      SplitLfText(first, "\n" + rest, "");
      assert ("\n" + rest)[1..] == rest;
      LfLinesAreSplit(lines[1..]);
      assert lines == [first] + lines[1..];
    }
  }

  lemma {:induction false} JoinedIsBetween(lines: seq<string>)
    requires lines != []
    ensures Joined(lines) == Between(lines, true)
  {
    if |lines| > 1 {
      JoinedIsBetween(lines[1..]);
    }
  }

  /** Both kinds of line ends are recognised by the first of them. */
  lemma {:induction false} LinesAreRaw(lines: seq<string>, crlf: bool)
    requires AreLines(lines)
    ensures RawLines(Ended(lines, crlf) + Eol(crlf)) == lines
  {
    hide Trimmed, Between, Ended, SplitLf, SplitCrLf, RemoveEmpty;
    TextIsTrimmed(lines, crlf);
    FirstEnd(lines, crlf);
    forall l | l in lines ensures '\r' !in l && '\n' !in l && l != "" {
      var i :| 0 <= i < |lines| && lines[i] == l;
      assert IsLine(lines[i]);
    }
    NoneRemoved(lines);
    if crlf {
      JoinedIsBetween(lines);
      LinesAreSplit(lines);
    } else {
      LfLinesAreSplit(lines);
    }
  }

  lemma {:induction false} FirstEnd(lines: seq<string>, crlf: bool)
    requires AreLines(lines)
    ensures var s := Ended(lines, crlf) + Eol(crlf);
            var pos := IndexOf(s, '\n', 0);
            0 < pos < |s| && (s[pos - 1] == '\r' <==> crlf)
  {
    hide Ended;
    var s, first := Ended(lines, crlf) + Eol(crlf), lines[0];
    assert IsLine(first);
    EndedBegins(lines, crlf);
    if crlf {
      assert s[..|first| + 2] == first + "\r\n";
      assert s[0..|first| + 1] == first + ['\r'];
      IndexIs(s, '\n', 0, |first| + 1);
    } else {
      assert s[..|first| + 1] == first + "\n";
      assert s[0..|first|] == first;
      IndexIs(s, '\n', 0, |first|);
    }
  }

  lemma EndedBegins(lines: seq<string>, crlf: bool)
    requires lines != []
    ensures lines[0] + Eol(crlf) <= Ended(lines, crlf)
  {
  }

  // ---- Folded lines. ----

  predicate Continues(l: string) {
    l != "" && IsSpace(l[0])
  }

  /** How many lines at the beginning continue one before. */
  function Continuations(lines: seq<string>): (n: nat)
    ensures n <= |lines|
  {
    if lines == [] || !Continues(lines[0]) then 0 else 1 + Continuations(lines[1..])
  }

  /** The texts of lines, each behind a space. */
  function Tail(lines: seq<string>): string {
    if lines == [] then "" else " " + Trimmed(lines[0]) + Tail(lines[1..])
  }

  /** Each line together with those that continue it. */
  function Unfolded(lines: seq<string>): seq<string>
    decreases |lines|
  {
    if lines == [] then []
    else
      var n := Continuations(lines[1..]);
      [lines[0] + Tail(lines[1..n + 1])] + Unfolded(lines[n + 1..])
  }

  lemma {:induction false} FoldsTail(lines: seq<string>, done: seq<string>)
    requires done != []
    ensures var n := Continuations(lines);
            Unfold(lines, done) == Unfold(lines[n..], done[|done| - 1 := done[|done| - 1] + Tail(lines[..n])])
    decreases |lines|
  {
    hide Trimmed;
    var n, last := Continuations(lines), done[|done| - 1];
    if n == 0 {
      assert lines[0..] == lines && last + Tail([]) == last;
      assert done[|done| - 1 := last] == done;
    } else {
      var t := " " + Trimmed(lines[0]);
      var next := done[|done| - 1 := last + t];
      FoldsTail(lines[1..], next);
      assert lines[..n][1..] == lines[1..][..n - 1];
      assert lines[n..] == lines[1..][n - 1..];
      assert last + " " + Trimmed(lines[0]) == last + t;
      assert (last + t) + Tail(lines[1..][..n - 1]) == last + Tail(lines[..n]);
      assert next[|next| - 1 := last + Tail(lines[..n])] == done[|done| - 1 := last + Tail(lines[..n])];
    }
  }

  /** A line that begins with white space continues the one before, behind a space. */
  lemma {:induction false} UnfoldIs(lines: seq<string>, done: seq<string>)
    requires "" !in lines && (lines == [] || !Continues(lines[0]))
    ensures Unfold(lines, done) == done + Unfolded(lines)
    decreases |lines|
  {
    hide Unfold, Tail, Continuations;
    if lines == [] {
      UnfoldNone(done);
      assert done + [] == done;
    } else {
      var n := Continuations(lines[1..]);
      var line := lines[0] + Tail(lines[1..n + 1]);
      UnfoldFirst(lines, done);
      Behind(lines[1..]);
      assert n < |lines[1..]| ==> lines[1..][n] == lines[n + 1..][0];
      UnfoldIs(lines[n + 1..], done + [line]);
      assert done + [line] + Unfolded(lines[n + 1..]) == done + ([line] + Unfolded(lines[n + 1..]));
    }
  }

  lemma UnfoldNone(done: seq<string>)
    ensures Unfold([], done) == done
  {
  }

  lemma {:induction false} UnfoldFirst(lines: seq<string>, done: seq<string>)
    requires lines != [] && lines[0] != "" && !Continues(lines[0])
    ensures var n := Continuations(lines[1..]);
            Unfold(lines, done) == Unfold(lines[n + 1..], done + [lines[0] + Tail(lines[1..n + 1])])
  {
    hide Tail, Continuations;
    var n := Continuations(lines[1..]);
    var next := done + [lines[0]];
    FoldsTail(lines[1..], next);
    hide Unfold;
    assert lines[1..][n..] == lines[n + 1..] && lines[1..][..n] == lines[1..n + 1];
    var line := lines[0] + Tail(lines[1..n + 1]);
    assert next[|next| - 1 := line] == done + [line];
  }

  lemma {:induction false} Behind(lines: seq<string>)
    ensures var n := Continuations(lines); n == |lines| || !Continues(lines[n])
  {
    if lines != [] && Continues(lines[0]) {
      Behind(lines[1..]);
    }
  }

  /** With either line end and with folded lines: what is parsed are the lines, each with those that continue it. */
  lemma {:induction false} TextIsParsed(lines: seq<string>, crlf: bool)
    requires AreLines(lines)
    ensures Parse(Ended(lines, crlf) + Eol(crlf)) == ParseLines(NEW_HEADER, Unfolded(lines))
  {
    hide RawLines, ParseLines, Unfold, Unfolded, Ended;
    LinesAreRaw(lines, crlf);
    forall l | l in lines ensures l != "" {
      var i :| 0 <= i < |lines| && lines[i] == l;
      assert IsLine(lines[i]);
    }
    UnfoldIs(lines, []);
    assert [] + Unfolded(lines) == Unfolded(lines);
  }

  // ---- Whole headers. ----

  /** The text of a field: white space may be anywhere around name and value. */
  datatype FieldText = FieldText(left: string, name: string, right: string, before: string, value: string, after: string)

  predicate IsFieldText(f: FieldText) {
    && IsBlank(f.left) && IsBlank(f.right) && IsBlank(f.before) && IsBlank(f.after)
    && IsTrimmed(f.name) && IsTrimmed(f.value) && ':' !in f.left + f.name + f.right
  }

  function LineOfText(f: FieldText): string {
    (f.left + f.name + f.right) + ":" + (f.before + f.value + f.after)
  }

  function FieldsOf(fs: seq<FieldText>): seq<Field> {
    seq(|fs|, i requires 0 <= i < |fs| => (fs[i].name, fs[i].value))
  }

  function LinesOfTexts(fs: seq<FieldText>): seq<string> {
    seq(|fs|, i requires 0 <= i < |fs| => LineOfText(fs[i]))
  }

  lemma {:induction false} FieldsAreTold(h: Header, fs: seq<FieldText>)
    requires h.valid && forall f | f in fs :: IsFieldText(f)
    ensures ParseFields(h, LinesOfTexts(fs)) == h.(values := h.values + FieldsOf(fs))
    decreases |fs|
  {
    hide ParseField, IsFieldText, Trimmed;
    if fs == [] {
      assert h.values + [] == h.values;
    } else {
      var f := fs[0];
      OneField(h, f);
      assert LinesOfTexts(fs)[1..] == LinesOfTexts(fs[1..]);
      var t := h.(values := h.values + [(f.name, f.value)]);
      FieldsAreTold(t, fs[1..]);
      assert FieldsOf(fs) == [(f.name, f.value)] + FieldsOf(fs[1..]);
      assert h.values + [(f.name, f.value)] + FieldsOf(fs[1..]) == h.values + FieldsOf(fs);
    }
  }

  lemma OneField(h: Header, f: FieldText)
    requires IsFieldText(f)
    ensures ParseField(h, LineOfText(f)) == h.(values := h.values + [(f.name, f.value)])
  {
    hide ParseField, Trimmed;
    FieldIsSplit(h, f.left + f.name + f.right, f.before + f.value + f.after);
    TrimmedIs(f.left, f.name, f.right);
    TrimmedIs(f.before, f.value, f.after);
  }

  /**
   A header with any white space, folded or not, and either line end says its version, code, reason and fields,
   in order.
   */
  lemma {:induction false} HeaderIsTold(lines: seq<string>, crlf: bool, m: nat, n: nat, code: string, k: nat, reason: string,
                                        fs: seq<FieldText>)
    requires AreLines(lines) && IsStatus(m, n, code, reason) && IsNumeral(code, k) && k <= 0x7FFF_FFFF
    requires forall f | f in fs :: IsFieldText(f)
    requires var us := Unfolded(lines); Simplified(us[0]) == StatusText(m, n, code, reason) && us[1..] == LinesOfTexts(fs)
    ensures Parse(Ended(lines, crlf) + Eol(crlf))
            == Header(true, m, n, k, reason, FieldsOf(fs))
  {
    hide Parse, Simplified, Ended, IsNumeral, ToInt, ParseStatus;
    TextIsParsed(lines, crlf);
    StatusIsTold(NEW_HEADER, Unfolded(lines)[0], m, n, code, reason);
    NumberWithSign("", "", code, "", k);
    assert "" + ("" + code) + "" == code;
    FieldsAreTold(Header(true, m, n, k, reason, []), fs);
    assert [] + FieldsOf(fs) == FieldsOf(fs);
  }

  /** A header that is printed: every line with its end, and an empty one; the numbers without leading zeros. */
  lemma {:induction false} HeaderIsPrinted(h: Header)
    requires WellFormed(h)
    ensures Print(h) == "HTTP/" + [DECIMAL[h.majVer]] + "." + [DECIMAL[h.minVer]] + " " + Digits(h.statCode) + " " + h.reasonPhr
                        + "\r\n" + Ended(PrintedLines(h.values), true) + "\r\n"
    ensures IsNumeral(Digits(h.statCode), h.statCode) && (h.statCode > 0 ==> Digits(h.statCode)[0] != '0')
  {
    hide Digits;
    DigitsWrite(h.statCode);
    OneDigit(h.majVer);
    OneDigit(h.minVer);
    FieldsArePrinted(h.values);
  }

  lemma OneDigit(n: nat)
    requires n < 10
    ensures Digits(n) == [DECIMAL[n]]
  {
    match n {
      case 0 => case 1 => case 2 => case 3 => case 4 => case 5 => case 6 => case 7 => case 8 => case 9 =>
    }
  }

  function PrintedLines(fs: seq<Field>): seq<string> {
    seq(|fs|, i requires 0 <= i < |fs| => fs[i].0 + ": " + fs[i].1)
  }

  lemma {:induction false} FieldsArePrinted(fs: seq<Field>)
    ensures PrintFields(fs) == Ended(PrintedLines(fs), true)
  {
    if fs != [] {
      assert PrintedLines(fs)[1..] == PrintedLines(fs[1..]);
      FieldsArePrinted(fs[1..]);
    }
  }
}
