/** Printing and parsing a response header (QHttpHeader and QHttpResponseHeader, qhttp.cpp). */
module HttpHeaderModel {

  // ---- Text, as QString has it for Latin-1. ----

  predicate IsSpace(c: char) {
    '\t' <= c <= '\r' || c == ' ' || c == 0x85 as char || c == 0xA0 as char
  }

  predicate IsDigit(c: char) {
    '0' <= c <= '9'
  }

  function TrimLeft(s: string): (t: string)
    ensures |t| <= |s|
  {
    if s != "" && IsSpace(s[0]) then TrimLeft(s[1..]) else s
  }

  function TrimRight(s: string): (t: string)
    ensures |t| <= |s|
  {
    if s != "" && IsSpace(s[|s| - 1]) then TrimRight(s[..|s| - 1]) else s
  }

  function Trimmed(s: string): string {
    TrimRight(TrimLeft(s))
  }

  /** Each run of white space becomes one space. */
  function Collapse(s: string): string
    decreases |s|
  {
    if s == "" then ""
    else if IsSpace(s[0]) then " " + Collapse(TrimLeft(s[1..]))
    else [s[0]] + Collapse(s[1..])
  }

  function Simplified(s: string): string {
    Collapse(Trimmed(s))
  }

  /** The position of c, from index from on. */
  function IndexOf(s: string, c: char, from: nat): (i: int)
    ensures -1 <= i < |s| && (i >= 0 ==> i >= from && s[i] == c)
    decreases |s| - from
  {
    if from >= |s| then -1 else if s[from] == c then from else IndexOf(s, c, from + 1)
  }

  function Digits(n: nat): (s: string)
    ensures s != "" && AllDigits(s)
  {
    if n < 10 then [('0' as int + n) as char] else Digits(n / 10) + [('0' as int + n % 10) as char]
  }

  predicate AllDigits(s: string) {
    forall i | 0 <= i < |s| :: IsDigit(s[i])
  }

  function DigitValue(c: char): int {
    c as int - '0' as int
  }

  function DigitsValue(s: string): int {
    if s == "" then 0 else 10 * DigitsValue(s[..|s| - 1]) + DigitValue(s[|s| - 1])
  }

  /** QString::toInt: zero if the text is no number that fits an int. */
  function ToInt(s: string): int {
    var t := Trimmed(s);
    var neg := t != "" && t[0] == '-';
    var d := if t != "" && (t[0] == '-' || t[0] == '+') then t[1..] else t;
    if d == "" || !AllDigits(d) then 0
    else
      var n := DigitsValue(d);
      var v := if neg then -n else n;
      if -0x8000_0000 <= v <= 0x7FFF_FFFF then v else 0
  }

  const CR_LF := "\r\n"

  /** split with "\r\n". */
  function SplitCrLf(s: string, part: string): seq<string>
    decreases |s|
  {
    if s == "" then [part]
    else if |s| >= 2 && s[..2] == CR_LF then [part] + SplitCrLf(s[2..], "")
    else SplitCrLf(s[1..], part + [s[0]])
  }

  /** split with "\n". */
  function SplitLf(s: string, part: string): seq<string>
    decreases |s|
  {
    if s == "" then [part]
    else if s[0] == '\n' then [part] + SplitLf(s[1..], "")
    else SplitLf(s[1..], part + [s[0]])
  }

  function RemoveEmpty(lst: seq<string>): seq<string> {
    if lst == [] then [] else (if lst[0] == "" then [] else [lst[0]]) + RemoveEmpty(lst[1..])
  }

  // ---- Headers. ----

  type Field = (string, string)

  datatype Header = Header(valid: bool, majVer: int, minVer: int, statCode: int, reasonPhr: string, values: seq<Field>)

  /** A header before anything is parsed. */
  const NEW_HEADER := Header(true, 0, 0, 0, "", [])

  function RawLines(str: string): seq<string> {
    var pos := IndexOf(str, '\n', 0);
    RemoveEmpty(if pos > 0 && str[pos - 1] == '\r' then SplitCrLf(Trimmed(str), "") else SplitLf(Trimmed(str), ""))
  }

  /** Lines that start with white space continue the line before. */
  function Unfold(lst: seq<string>, lines: seq<string>): seq<string>
    decreases |lst|
  {
    if lst == [] then lines
    else if lst[0] != "" && IsSpace(lst[0][0]) then
      Unfold(lst[1..], if lines == [] then lines
                       else lines[|lines| - 1 := lines[|lines| - 1] + " " + Trimmed(lst[0])])
    else Unfold(lst[1..], lines + [lst[0]])
  }

  /** QHttpHeader::parseLine. */
  function ParseField(h: Header, line: string): Header {
    var i := IndexOf(line, ':', 0);
    if i == -1 then h.(valid := false)
    else h.(values := h.values + [(Trimmed(line[..i]), Trimmed(line[i + 1..]))])
  }

  predicate HasVersion(l: string)
    requires |l| >= 10
  {
    l[..5] == "HTTP/" && IsDigit(l[5]) && l[6] == '.' && IsDigit(l[7]) && l[8] == ' ' && IsDigit(l[9])
  }

  /** QHttpResponseHeader::parseLine for the first line. */
  function ParseStatus(h: Header, line: string): Header {
    var l := Simplified(line);
    if |l| < 10 || !HasVersion(l) then h.(valid := false)
    else
      var pos := IndexOf(l, ' ', 9);
      h.(majVer := DigitValue(l[5]), minVer := DigitValue(l[7]),
         reasonPhr := if pos != -1 then l[pos + 1..] else "",
         statCode := ToInt(if pos != -1 then l[9..pos] else l[9..]))
  }

  function ParseFields(h: Header, lines: seq<string>): Header
    decreases |lines|
  {
    if lines == [] then h
    else
      var t := ParseField(h, lines[0]);
      if t.valid then ParseFields(t, lines[1..]) else t
  }

  function ParseLines(h: Header, lines: seq<string>): Header {
    if lines == [] then h
    else
      var t := ParseStatus(h, lines[0]);
      if t.valid then ParseFields(t, lines[1..]) else t
  }

  /** What the constructor makes of a text. */
  function Parse(str: string): Header {
    ParseLines(NEW_HEADER, Unfold(RawLines(str), []))
  }

  /** The text of an int. */
  function IntText(n: int): string {
    if n < 0 then "-" + Digits(-n) else Digits(n)
  }

  function StatusLine(h: Header): string {
    "HTTP/" + IntText(h.majVer) + "." + IntText(h.minVer) + " " + IntText(h.statCode) + " " + h.reasonPhr
  }

  function FieldLine(f: Field): string {
    f.0 + ": " + f.1
  }

  function PrintFields(fs: seq<Field>): string {
    if fs == [] then "" else FieldLine(fs[0]) + CR_LF + PrintFields(fs[1..])
  }

  /** toString of a valid header whose reason holds no percent sign. */
  function Print(h: Header): string {
    StatusLine(h) + CR_LF + PrintFields(h.values) + CR_LF
  }

  // ---- Headers that can be printed and parsed. ----

  /** Neither starts nor ends with white space. */
  predicate IsTrimmed(s: string) {
    s != "" ==> !IsSpace(s[0]) && !IsSpace(s[|s| - 1])
  }

  /** White space is a single space between two other characters. */
  predicate IsSimple(s: string) {
    IsTrimmed(s) && Single(s)
  }

  predicate Single(s: string) {
    forall i | 0 <= i < |s| && IsSpace(s[i]) :: s[i] == ' ' && i + 1 < |s| && !IsSpace(s[i + 1])
  }

  predicate OnOneLine(s: string) {
    '\r' !in s && '\n' !in s
  }

  predicate WellFormedField(f: Field) {
    IsTrimmed(f.0) && IsTrimmed(f.1) && OnOneLine(f.0) && OnOneLine(f.1) && ':' !in f.0
  }

  predicate WellFormed(h: Header) {
    && h.valid && 0 <= h.majVer <= 9 && 0 <= h.minVer <= 9 && 0 <= h.statCode <= 0x7FFF_FFFF
    && IsSimple(h.reasonPhr) && '%' !in h.reasonPhr
    && forall f | f in h.values :: WellFormedField(f)
  }
}
