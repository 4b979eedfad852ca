/** However the network splits a chunked body, the decoder yields its data, with one exact exception. */
module ChunkedProofs {
  import opened Bytes
  import opened Modbus
  import opened ChunkedModel

  // ---- Size lines. ----

  lemma {:induction false} TrimRightSpace(s: seq<byte>, space: seq<byte>)
    requires AllSpace(space) && (s == [] || !IsSpace(s[|s| - 1]))
    ensures TrimRight(s + space) == s
    decreases |space|
  {
    if space == [] {
      assert s + space == s;
    } else {
      var n := |space| - 1;
      assert (s + space)[..|s + space| - 1] == s + space[..n];
      TrimRightSpace(s, space[..n]);
    }
  }

  lemma BlankIsSpace(s: seq<byte>)
    ensures IsBlank(s) <==> AllSpace(s)
  {
    assert forall b: byte :: b in WHITE_SPACE <==> IsSpace(b);
    if IsBlank(s) {
      assert forall i | 0 <= i < |s| :: s[i] in WHITE_SPACE;
    }
  }

  lemma DigitIs(b: byte, k: nat)
    requires k < 16
    ensures IsDigit(b, k) <==> IsHex(b) && HexDigit(b) == k
  {
    match k {
      case 0 => case 1 => case 2 => case 3 => case 4 => case 5 => case 6 => case 7 =>
      case 8 => case 9 => case 10 => case 11 => case 12 => case 13 => case 14 => case 15 =>
    }
  }

  /** The numerals of n are the digits whose value it is. */
  lemma {:induction false} NumeralIs(s: seq<byte>, n: nat)
    ensures IsNumeral(s, n) <==> AllHex(s) && HexValue(s) == n
  {
    hide IsDigit, IsHex;
    if s != [] {
      var b, t := s[|s| - 1], s[..|s| - 1];
      DigitIs(b, n % 16);
      NumeralIs(t, n / 16);
      assert AllHex(s) <==> AllHex(t) && IsHex(b);
      if AllHex(s) {
        assert HexDigit(b) < 16 by { DigitBound(b); }
      }
    }
  }

  lemma DigitBound(b: byte)
    requires IsHex(b)
    ensures HexDigit(b) < 16
  {
  }

  lemma DigitOf(k: nat, alphabet: string)
    requires k < 16 && (alphabet == LOWER_CASE || alphabet == UPPER_CASE)
    ensures IsDigit(AsByte(alphabet[k]), k)
  {
    match k {
      case 0 => case 1 => case 2 => case 3 => case 4 => case 5 => case 6 => case 7 =>
      case 8 => case 9 => case 10 => case 11 => case 12 => case 13 => case 14 => case 15 =>
    }
  }

  lemma {:induction false} TextIsNumeral(n: nat, alphabet: string)
    requires alphabet == LOWER_CASE || alphabet == UPPER_CASE
    ensures IsNumeral(HexText(n, alphabet), n) && HexText(n, alphabet) != []
  {
    hide IsDigit, AsByte;
    var t, b := HexText(n, alphabet), AsByte(alphabet[n % 16]);
    DigitOf(n % 16, alphabet);
    if n >= 16 {
      TextIsNumeral(n / 16, alphabet);
      Last(HexText(n / 16, alphabet), b);
    } else {
      Last([], b);
    }
  }

  lemma Last(s: seq<byte>, b: byte)
    ensures (s + [b])[|s + [b]| - 1] == b && (s + [b])[..|s + [b]| - 1] == s
  {
  }

  /** Every number that an int holds is read from its hexadecimal text, in either case. */
  lemma HexTextIsRead(n: nat, alphabet: string)
    requires n <= 0x7FFF_FFFF && (alphabet == LOWER_CASE || alphabet == UPPER_CASE)
    ensures ToInt16(HexText(n, alphabet)) == Some(n)
  {
    hide ToInt16, HexText;
    var t := HexText(n, alphabet);
    TextIsNumeral(n, alphabet);
    NumeralIs(t, n);
    DigitsAreRead(t, []);
    assert t + [] == t;
  }

  /** Digits followed by white space are read as their value. */
  lemma DigitsAreRead(digits: seq<byte>, space: seq<byte>)
    requires digits != [] && AllHex(digits) && AllSpace(space) && HexValue(digits) <= 0x7FFF_FFFF
    ensures ToInt16(digits + space) == Some(HexValue(digits))
  {
    var s := digits + space;
    assert s[0] == digits[0];
    assert TrimLeft(s) == s;
    TrimRightSpace(digits, space);
  }

  /** A number with white space around it, a sign and a prefix. */
  datatype Integer = Integer(left: seq<byte>, sign: seq<byte>, prefix: seq<byte>, digits: seq<byte>, right: seq<byte>)

  const PLUS: seq<byte> := [43]
  const MINUS: seq<byte> := [45]

  /** It stands for n, or for -n. */
  predicate Stands(i: Integer, n: nat) {
    && IsBlank(i.left) && IsBlank(i.right)
    && (i.sign == [] || i.sign == PLUS || i.sign == MINUS)
    && (i.prefix == [] || i.prefix == [48, 120] || i.prefix == [48, 88]) // "0x", "0X"
    && i.digits != [] && IsNumeral(i.digits, n)
  }

  function TextOf(i: Integer): seq<byte> {
    i.left + (i.sign + (i.prefix + i.digits) + i.right)
  }

  function Signed(i: Integer, n: nat): int {
    if i.sign == MINUS then 0 - n else n
  }

  predicate IsInt32(v: int) {
    -0x8000_0000 <= v <= 0x7FFF_FFFF
  }

  /** A number in this form is read as what it stands for, if an int can hold that, and not at all otherwise. */
  lemma IntegerIsRead(i: Integer, n: nat)
    requires Stands(i, n)
    ensures ToInt16(TextOf(i)) == if IsInt32(Signed(i, n)) then Some(Signed(i, n)) else None
  {
    hide IsHex, IsSpace, IsNumeral, HexValue, TrimLeft, TrimRight, WithoutPrefix, WithoutSign;
    BlankIsSpace(i.left);
    BlankIsSpace(i.right);
    NumeralIs(i.digits, n);
    var u := i.prefix + i.digits;
    var t := i.sign + u;
    PrefixIsRead(i.prefix, i.digits);
    SignIsRead(i.sign, u);
    NumberHasNoSpace(i);
    TrimLeftSpace(i.left, t + i.right);
    TrimRightSpace(t, i.right);
  }

  lemma PrefixIsRead(prefix: seq<byte>, digits: seq<byte>)
    requires prefix == [] || prefix == [48, 120] || prefix == [48, 88]
    requires digits != [] && AllHex(digits)
    ensures WithoutPrefix(prefix + digits) == digits
    ensures prefix + digits != [] && (prefix + digits)[0] != 43 && (prefix + digits)[0] != 45
  {
  }

  lemma SignIsRead(sign: seq<byte>, u: seq<byte>)
    requires (sign == [] || sign == PLUS || sign == MINUS) && u != [] && u[0] != 43 && u[0] != 45
    ensures WithoutSign(sign + u) == u && sign + u != [] && ((sign + u)[0] == 45 <==> sign == MINUS)
  {
  }

  lemma NumberHasNoSpace(i: Integer)
    requires (i.sign == [] || i.sign == PLUS || i.sign == MINUS) && i.digits != [] && AllHex(i.digits)
    requires i.prefix == [] || i.prefix == [48, 120] || i.prefix == [48, 88]
    ensures var t := i.sign + (i.prefix + i.digits);
            t != [] && !IsSpace(t[0]) && !IsSpace(t[|t| - 1])
  {
    var t := i.sign + (i.prefix + i.digits);
    assert t[|t| - 1] == i.digits[|i.digits| - 1];
  }

  lemma {:induction false} TrimLeftSpace(space: seq<byte>, s: seq<byte>)
    requires AllSpace(space) && (s == [] || !IsSpace(s[0]))
    ensures TrimLeft(space + s) == s
  {
    if space == [] {
      assert space + s == s;
    } else {
      assert (space + s)[1..] == space[1..] + s;
      TrimLeftSpace(space[1..], s);
    }
  }

  lemma {:induction false} LeftSpace(s: seq<byte>) returns (space: seq<byte>)
    ensures AllSpace(space) && s == space + TrimLeft(s)
  {
    if s != [] && IsSpace(s[0]) {
      var rest := LeftSpace(s[1..]);
      space := [s[0]] + rest;
    } else {
      space := [];
    }
  }

  lemma {:induction false} RightSpace(s: seq<byte>) returns (space: seq<byte>)
    ensures AllSpace(space) && s == TrimRight(s) + space
  {
    if s != [] && IsSpace(s[|s| - 1]) {
      var rest := RightSpace(s[..|s| - 1]);
      space := rest + [s[|s| - 1]];
    } else {
      space := [];
    }
  }

  /** Nothing else is read as a number. */
  lemma {:induction false} OnlyIntegersAreRead(s: seq<byte>) returns (i: Integer, n: nat)
    requires ToInt16(s).Some?
    ensures s == TextOf(i) && Stands(i, n) && IsInt32(Signed(i, n)) && ToInt16(s).value == Signed(i, n)
  {
    hide IsHex, IsSpace, IsNumeral, HexValue, TrimLeft, TrimRight, WithoutPrefix, WithoutSign;
    var left := LeftSpace(s);
    var right := RightSpace(TrimLeft(s));
    var t := TrimRight(TrimLeft(s));
    var sign := SignOf(t);
    var prefix := PrefixOf(WithoutSign(t));
    var digits := WithoutPrefix(WithoutSign(t));
    n := HexValue(digits);
    NumeralIs(digits, n);
    BlankIsSpace(left);
    BlankIsSpace(right);
    i := Integer(left, sign, prefix, digits, right);
  }

  lemma SignOf(t: seq<byte>) returns (sign: seq<byte>)
    ensures t == sign + WithoutSign(t) && (sign == [] || sign == PLUS || sign == MINUS)
    ensures WithoutSign(t) != [] ==> (sign == MINUS <==> t[0] == 45)
  {
    sign := if t != [] && (t[0] == 43 || t[0] == 45) then t[..1] else [];
  }

  lemma PrefixOf(u: seq<byte>) returns (prefix: seq<byte>)
    ensures u == prefix + WithoutPrefix(u) && (prefix == [] || prefix == [48, 120] || prefix == [48, 88])
  {
    prefix := if |u| >= 2 && u[0] == 48 && (u[1] == 120 || u[1] == 88) then u[..2] else [];
  }

  lemma {:induction false} UpToExt(s: seq<byte>, ext: seq<byte>)
    requires SEMICOLON !in s && (ext == [] || ext[0] == SEMICOLON)
    ensures UpTo(s + ext, SEMICOLON) == s
  {
    if s == [] {
      assert s + ext == ext;
    } else {
      assert (s + ext)[0] == s[0] && (s + ext)[1..] == s[1..] + ext;
      UpToExt(s[1..], ext);
      assert s == [s[0]] + s[1..];
    }
  }

  /** The size line of a chunk is read as the length of its data; zero becomes -2. */
  lemma SizeLineIsRead(c: Chunk)
    requires WellFormedChunk(c)
    ensures SizeOf(SizeText(c) + CRLF) == Some(if c.data == [] then -2 else |c.data|)
  {
    var number := c.digits + c.space;
    NumeralIs(c.digits, |c.data|);
    BlankIsSpace(c.space);
    assert SEMICOLON !in number;
    if c.ext == [] {
      var space := c.space + CRLF;
      assert SizeText(c) + CRLF == (c.digits + space) + [];
      UpToExt(c.digits + space, []);
      DigitsAreRead(c.digits, space);
    } else {
      assert SizeText(c) + CRLF == number + (c.ext + CRLF);
      UpToExt(number, c.ext + CRLF);
      DigitsAreRead(c.digits, c.space);
    }
  }

  /** A size line that is no number fails the response. */
  lemma BadSizeFails(sock: seq<byte>, got: seq<byte>)
    requires LF in sock && SizeOf(sock[..LineEnd(sock)]) == None
    ensures Loop(0, sock, got) == Failed
  {
  }

  /** A size of -1 is accepted, and ends the body at once. */
  lemma MinusOneFinishes(sock: seq<byte>, got: seq<byte>)
    requires LF in sock && SizeOf(sock[..LineEnd(sock)]) == Some(-1)
    ensures Loop(0, sock, got) == Finished(sock[LineEnd(sock)..], got)
  {
  }

  /** Any other negative size, but for -2, makes everything behind it data, and never ends. */
  lemma NegativeNeverEnds(size: int, sock: seq<byte>, got: seq<byte>)
    requires size < -2
    ensures Loop(size, sock, got) == Waiting(size - |sock|, [], got + sock)
  {
    assert Loop(size, sock, got) == AfterSize(size, sock, got) == ReadData(size, sock, got);
    if sock == [] {
      assert got + [] == got;
    } else {
      var left := size - |sock|;
      assert sock[|sock|..] == [] && sock[..|sock|] == sock;
      assert Loop(left, [], got + sock) == AfterSize(left, [], got + sock) == ReadData(left, [], got + sock);
    }
  }

  /** A chunk that has arrived with what follows it fails the response, if that is not a line end. */
  lemma BadEndFails(data: seq<byte>, end: seq<byte>, more: seq<byte>, got: seq<byte>)
    requires data != [] && |end| == 2 && end != [13, 10]
    ensures Loop(|data|, data + end + more, got) == Failed
  {
    var sock := data + end + more;
    assert Loop(|data|, sock, got) == AfterSize(|data|, sock, got) == ReadData(|data|, sock, got);
    assert sock[|data|..][..2] == end;
  }

  // ---- Lines in a stream of which only a part has arrived. ----

  lemma {:induction false} LineEndOf(text: seq<byte>, more: seq<byte>)
    requires LF !in text
    ensures LF in text + [LF] + more && LineEnd(text + [LF] + more) == |text| + 1
  {
    var s := text + [LF] + more;
    assert s[|text|] == LF;
    if text != [] {
      assert s[1..] == text[1..] + [LF] + more;
      LineEndOf(text[1..], more);
    }
  }

  /** The line text CRLF is readable exactly when all of it has arrived, and then it is what is read. */
  lemma LineArrives(sock: seq<byte>, rem: seq<byte>, text: seq<byte>, more: seq<byte>)
    requires sock + rem == text + CRLF + more && LF !in text
    ensures LF in sock <==> |sock| >= |text| + 2
    ensures LF in sock ==> LineEnd(sock) == |text| + 2 && sock[..|text| + 2] == text + CRLF &&
                           sock[|text| + 2..] + rem == more
  {
    if |sock| >= |text| + 2 {
      HasArrived(sock, rem, text, more);
    } else {
      HasNotArrived(sock, rem, text, more);
    }
  }

  lemma HasArrived(sock: seq<byte>, rem: seq<byte>, text: seq<byte>, more: seq<byte>)
    requires sock + rem == text + CRLF + more && LF !in text && |sock| >= |text| + 2
    ensures LF in sock && LineEnd(sock) == |text| + 2 && sock[..|text| + 2] == text + CRLF
    ensures sock[|text| + 2..] + rem == more
  {
    hide LineEnd;
    var all, k := text + CRLF + more, |text| + 2;
    Halves(sock, rem, text + CRLF, more);
    assert text + CRLF == (text + [CR]) + [LF];
    LineEndOf(text + [CR], sock[k..]);
  }

  /** What two divisions of a sequence have in common. */
  lemma Halves(a: seq<byte>, b: seq<byte>, c: seq<byte>, d: seq<byte>)
    requires a + b == c + d && |a| >= |c|
    ensures a == c + a[|c|..] && a[..|c|] == c && a[|c|..] + b == d
  {
    assert a == (a + b)[..|a|];
    assert a[|c|..] + b == (a + b)[|c|..];
    assert d == (c + d)[|c|..];
  }

  lemma HasNotArrived(sock: seq<byte>, rem: seq<byte>, text: seq<byte>, more: seq<byte>)
    requires sock + rem == text + CRLF + more && LF !in text && |sock| < |text| + 2
    ensures LF !in sock
  {
    assert sock == (sock + rem)[..|sock|];
    assert (text + CRLF + more)[..|sock|] == (text + [CR])[..|sock|];
  }

  // ---- Where in a body the decoder stands. ----

  /** In front of a size line, in the data of a chunk of which d is left, or in front of a trailer line. */
  datatype Position = AtSize(body: Body) | InData(d: seq<byte>, body: Body) | InTrailer(ts: seq<seq<byte>>)

  predicate ValidPosition(p: Position) {
    match p
    case AtSize(b) => WellFormed(b)
    case InData(d, b) => d != [] && WellFormed(b)
    case InTrailer(ts) => WellFormedTrailers(ts)
  }

  /** What is still to come on the wire. */
  function Wire(p: Position): seq<byte> {
    match p
    case AtSize(b) => EncodeBody(b)
    case InData(d, b) => d + CRLF + EncodeBody(b)
    case InTrailer(ts) => EncodeTrailers(ts)
  }

  /** The data that is still to come. */
  function DataIn(p: Position): seq<byte> {
    match p
    case AtSize(b) => DataOf(b)
    case InData(d, b) => d + DataOf(b)
    case InTrailer(_) => []
  }

  /** chunkedSize at this position: 0 only in front of a size line, so after the CRLF of the chunk before. */
  function SizeAt(p: Position): int {
    match p
    case AtSize(_) => 0
    case InData(d, _) => |d|
    case InTrailer(_) => -2
  }

  function TrailersIn(p: Position): seq<seq<byte>> {
    match p
    case AtSize(b) => b.trailers
    case InData(_, b) => b.trailers
    case InTrailer(ts) => ts
  }

  /** The last e bytes of a trailer start at the start of one of its lines, or e is zero. */
  predicate AtLineStart(ts: seq<seq<byte>>, e: nat) {
    e == |EncodeTrailers(ts)| || if ts == [] then e == 0 else AtLineStart(ts[1..], e)
  }

  /** A cut with e bytes to come does not lie strictly within a line after the last-chunk line. */
  predicate SafeCut(ts: seq<seq<byte>>, e: nat) {
    e > |EncodeTrailers(ts)| || AtLineStart(ts, e)
  }

  lemma {:induction false} AtLineStartBound(ts: seq<seq<byte>>, e: nat)
    requires AtLineStart(ts, e)
    ensures e <= |EncodeTrailers(ts)|
  {
    if ts != [] && e != |EncodeTrailers(ts)| {
      AtLineStartBound(ts[1..], e);
    }
  }

  /** Behind the first line only the lines that follow matter. */
  lemma SafeCutTail(ts: seq<seq<byte>>, e: nat)
    requires ts != [] && e <= |EncodeTrailers(ts[1..])|
    ensures SafeCut(ts, e) == SafeCut(ts[1..], e)
  {
  }

  /** What is strictly within the first line is no safe cut. */
  lemma CutInFirstLine(ts: seq<seq<byte>>, e: nat)
    requires e < |EncodeTrailers(ts)| && (if ts == [] then e > 0 else e > |EncodeTrailers(ts[1..])|)
    ensures !SafeCut(ts, e)
  {
    if ts != [] && AtLineStart(ts[1..], e) {
      AtLineStartBound(ts[1..], e);
    }
  }

  lemma {:induction false} BodyBehind(b: Body)
    ensures |EncodeBody(b)| >= |EncodeTrailers(b.trailers)| + 2
    decreases |b.chunks|
  {
    if b.chunks != [] {
      BodyBehind(b.(chunks := b.chunks[1..]));
    }
  }

  // ---- One call of the decoder. ----

  /** With the rest rem still under way, the trailer loop stops in front of the line that is not complete. */
  lemma {:induction false} TrailerReads(ts: seq<seq<byte>>, sock: seq<byte>, rem: seq<byte>) returns (k: nat)
    requires WellFormedTrailers(ts) && sock + rem == EncodeTrailers(ts)
    ensures rem == [] ==> ReadTrailer(sock) == (-1, [])
    ensures rem != [] ==> k <= |ts| && ReadTrailer(sock).0 == -2
    ensures rem != [] ==> ReadTrailer(sock).1 + rem == EncodeTrailers(ts[k..])
    ensures rem != [] ==> (ReadTrailer(sock).1 == [] <==> SafeCut(ts, |rem|))
    ensures rem != [] ==> forall e: nat | e <= |rem| :: SafeCut(ts[k..], e) == SafeCut(ts, e)
    decreases |ts|
  {
    k := 0;
    var text := if ts == [] then [] else ts[0];
    var more := if ts == [] then [] else EncodeTrailers(ts[1..]);
    assert EncodeTrailers(ts) == text + CRLF + more;
    LineArrives(sock, rem, text, more);
    if LF !in sock {
      assert ts[0..] == ts;
      if sock != [] {
        CutInFirstLine(ts, |rem|);
      }
    } else if ts == [] {
      assert sock[..2] == CRLF;
    } else {
      var n := LineEnd(sock);
      assert sock[..n][0] == text[0] && text[0] != LF;
      assert |sock[..n]| > 2;
      k := TrailerReads(ts[1..], sock[n..], rem);
      if rem != [] {
        k := k + 1;
        assert ts[1..][k - 1..] == ts[k..];
        forall e: nat | e <= |rem| ensures SafeCut(ts[k..], e) == SafeCut(ts, e) {
          SafeCutTail(ts, e);
        }
      }
    }
  }

  lemma NothingToRead(cs: int, got: seq<byte>)
    requires cs > 0 || cs <= -3
    ensures Loop(cs, [], got) == Waiting(cs, [], got)
  {
  }

  /** At the end of what has arrived the decoder stands at a position q of the body. */
  ghost predicate StandsAt(o: Outcome, q: Position, p: Position, rem: seq<byte>, got: seq<byte>) {
    && ValidPosition(q) && o.Waiting? && o.cs == SizeAt(q) && o.sock + rem == Wire(q)
    && o.got + DataIn(q) == got + DataIn(p)
    && forall e: nat | e <= |rem| :: SafeCut(TrailersIn(q), e) == SafeCut(TrailersIn(p), e)
  }

  /** The decoder has taken part of a trailer line for data, and everything that follows is data to it. */
  predicate Derailed(o: Outcome, data: seq<byte>) {
    o.Waiting? && o.cs <= -3 && o.sock == [] && data < o.got
  }

  /** What one call comes to: done exactly if nothing is missing, and derailed exactly by an unsafe cut. */
  ghost predicate Reads(o: Outcome, q: Position, p: Position, rem: seq<byte>, got: seq<byte>) {
    if rem == [] then o == Finished([], got + DataIn(p))
    else if SafeCut(TrailersIn(p), |rem|) then StandsAt(o, q, p, rem, got)
    else Derailed(o, got + DataIn(p))
  }

  lemma LoopIsReadData(n: int, sock: seq<byte>, got: seq<byte>)
    requires n > 0 || n <= -3
    ensures Loop(n, sock, got) == ReadData(n, sock, got)
  {
  }

  /** Of a chunk whose CRLF has not arrived the last byte is left; else the chunk and its CRLF go together. */
  lemma LoopOnChunk(n: nat, sock: seq<byte>, got: seq<byte>)
    requires n > 0
    ensures |sock| < n ==> Loop(n, sock, got) == Waiting(n - |sock|, [], got + sock)
    ensures n <= |sock| <= n + 1 ==> Loop(n, sock, got) == Waiting(1, sock[n - 1..], got + sock[..n - 1])
    ensures |sock| >= n + 2 && sock[n..][..2] == CRLF
            ==> Loop(n, sock, got) == Loop(0, sock[n + 2..], got + sock[..n])
  {
    hide Loop;
    var m := |sock|;
    LoopIsReadData(n, sock, got);
    if m < n {
      assert sock[m..] == [] && sock[..m] == sock && got + [] == got;
      NothingToRead(n - m, got + sock);
    } else if m <= n + 1 {
      var rest, more := sock[n - 1..], got + sock[..n - 1];
      LoopIsReadData(1, rest, more);
      assert n == 1 ==> rest == sock && more == got;
    } else {
      assert sock[n..][2..] == sock[n + 2..];
    }
  }

  lemma LoopInTrailer(sock: seq<byte>, got: seq<byte>)
    ensures var (next, rest) := ReadTrailer(sock);
            Loop(-2, sock, got) == if next == -1 then Finished(rest, got)
                                   else Waiting(-2 - |rest|, [], got + rest)
  {
    hide ReadTrailer;
    var (next, rest) := ReadTrailer(sock);
    if next != -1 {
      assert rest[|rest|..] == [] && rest[..|rest|] == rest && got + [] == got;
      assert Loop(-2, sock, got) == ReadData(-2, rest, got);
      if rest != [] {
        NothingToRead(-2 - |rest|, got + rest);
      }
    }
  }

  lemma InTrailerReads(ts: seq<seq<byte>>, sock: seq<byte>, rem: seq<byte>, got: seq<byte>) returns (q: Position)
    requires WellFormedTrailers(ts) && sock + rem == EncodeTrailers(ts)
    ensures Reads(Loop(-2, sock, got), q, InTrailer(ts), rem, got)
  {
    hide Loop, SafeCut, ReadTrailer;
    var k := TrailerReads(ts, sock, rem);
    LoopInTrailer(sock, got);
    assert got + DataIn(InTrailer(ts)) == got;
    q := InTrailer(if k <= |ts| then ts[k..] else []);
  }

  /** Within a chunk, if its CRLF has not arrived yet. */
  lemma PartOfChunk(p: Position, sock: seq<byte>, rem: seq<byte>, got: seq<byte>) returns (q: Position)
    requires p.InData? && ValidPosition(p) && sock + rem == Wire(p) && |sock| < |p.d| + 2
    ensures Reads(Loop(|p.d|, sock, got), q, p, rem, got)
  {
    hide Wire, SafeCut, DataIn, Loop, WellFormed;
    var d, b := p.d, p.body;
    LoopOnChunk(|d|, sock, got);
    var n := if |sock| < |d| then |sock| else |d| - 1;
    SplitChunk(p, sock, rem, got, n);
    CutBeforeTrailers(b.trailers, |rem|);
    q := InData(d[n..], b);
  }

  lemma SplitChunk(p: Position, sock: seq<byte>, rem: seq<byte>, got: seq<byte>, n: nat)
    requires p.InData? && sock + rem == Wire(p) && n <= |sock| < |p.d| + 2 && n < |p.d|
    ensures sock[n..] + rem == Wire(InData(p.d[n..], p.body)) && (n == |sock| ==> sock[n..] == [])
    ensures got + sock[..n] + DataIn(InData(p.d[n..], p.body)) == got + DataIn(p)
    ensures n == |sock| ==> sock == sock[..n]
    ensures |rem| > |EncodeTrailers(p.body.trailers)|
  {
    hide EncodeBody, DataOf, EncodeTrailers;
    BodyBehind(p.body);
    var d, more, data := p.d, CRLF + EncodeBody(p.body), DataOf(p.body);
    CutStream(d, d + CRLF + EncodeBody(p.body), more, sock, rem, n);
    assert got + d[..n] + (d[n..] + data) == got + (d[..n] + (d[n..] + data));
    assert d[n..] + CRLF + EncodeBody(p.body) == d[n..] + more;
    assert d[..n] + (d[n..] + data) == d + data;
  }

  lemma CutStream(d: seq<byte>, all: seq<byte>, more: seq<byte>, sock: seq<byte>, rem: seq<byte>, n: nat)
    requires sock + rem == all && all == d + more && n <= |sock| && n <= |d|
    ensures sock[..n] == d[..n] && sock[n..] + rem == d[n..] + more
  {
    assert all[..n] == sock[..n] && all[..n] == d[..n];
    assert all[n..] == sock[n..] + rem && all[n..] == d[n..] + more;
  }

  lemma CutBeforeTrailers(ts: seq<seq<byte>>, e: nat)
    requires e > |EncodeTrailers(ts)|
    ensures SafeCut(ts, e)
  {
  }

  function FirstChunk(b: Body): Chunk {
    if b.chunks == [] then b.last else b.chunks[0]
  }

  /** The position behind the first size line. */
  function Second(b: Body): Position {
    if b.chunks == [] then InTrailer(b.trailers) else InData(b.chunks[0].data, b.(chunks := b.chunks[1..]))
  }

  lemma {:induction false} LoopReads(p: Position, sock: seq<byte>, rem: seq<byte>, got: seq<byte>) returns (q: Position)
    requires ValidPosition(p) && sock + rem == Wire(p)
    ensures Reads(Loop(SizeAt(p), sock, got), q, p, rem, got)
    decreases |sock|, 2
  {
    match p
    case InTrailer(ts) =>
      q := InTrailerReads(ts, sock, rem, got);
    case InData(d, b) =>
      if |sock| < |d| + 2 {
        q := PartOfChunk(p, sock, rem, got);
      } else {
        q := WholeChunk(p, sock, rem, got);
      }
    case AtSize(b) =>
      q := SizeReads(b, sock, rem, got);
  }

  lemma {:induction false} WholeChunk(p: Position, sock: seq<byte>, rem: seq<byte>, got: seq<byte>) returns (q: Position)
    requires p.InData? && ValidPosition(p) && sock + rem == Wire(p) && |sock| >= |p.d| + 2
    ensures Reads(Loop(|p.d|, sock, got), q, p, rem, got)
    decreases |sock|, 0
  {
    hide EncodeBody, SafeCut, DataOf, Loop;
    var d, b := p.d, p.body;
    var n := |d|;
    LoopOnChunk(n, sock, got);
    var rest := sock[n + 2..];
    assert sock[..n] == d by { assert sock[..n] == Wire(p)[..n]; }
    assert sock[n..][..2] == CRLF by { assert sock[n..][..2] == Wire(p)[n..][..2]; }
    assert rest + rem == Wire(p)[n + 2..] == EncodeBody(b);
    q := LoopReads(AtSize(b), rest, rem, got + d);
    assert got + DataIn(p) == got + d + DataIn(AtSize(b));
  }

  lemma BodyStarts(b: Body)
    ensures EncodeBody(b) == SizeText(FirstChunk(b)) + CRLF + Wire(Second(b))
    ensures DataOf(b) == DataIn(Second(b)) && TrailersIn(Second(b)) == b.trailers
  {
    hide SizeText;
    if b.chunks != [] {
      var c, rest := b.chunks[0], EncodeBody(b.(chunks := b.chunks[1..]));
      assert SizeText(c) + CRLF + c.data + CRLF + rest == SizeText(c) + CRLF + (c.data + CRLF + rest);
    }
  }

  lemma SecondIsValid(b: Body)
    requires WellFormed(b)
    ensures ValidPosition(Second(b)) && WellFormedChunk(FirstChunk(b))
    ensures |Wire(Second(b))| >= |EncodeTrailers(b.trailers)|
  {
    hide EncodeTrailers;
    if b.chunks != [] {
      BodyBehind(Second(b).body);
    }
  }

  lemma LoopAtSize(sock: seq<byte>, got: seq<byte>, v: int)
    ensures LF !in sock ==> Loop(0, sock, got) == Waiting(0, sock, got)
    ensures LF in sock && v != 0 && SizeOf(sock[..LineEnd(sock)]) == Some(v)
            ==> Loop(0, sock, got) == Loop(v, sock[LineEnd(sock)..], got)
  {
    hide SizeOf, LineEnd;
  }

  lemma {:induction false} SizeReads(b: Body, sock: seq<byte>, rem: seq<byte>, got: seq<byte>) returns (q: Position)
    requires WellFormed(b) && sock + rem == EncodeBody(b)
    ensures Reads(Loop(0, sock, got), q, AtSize(b), rem, got)
    decreases |sock|, 1
  {
    hide SafeCut, SizeOf, Loop, EncodeBody, DataOf;
    var p := AtSize(b);
    var c, next := FirstChunk(b), Second(b);
    BodyStarts(b);
    SecondIsValid(b);
    LineArrives(sock, rem, SizeText(c), Wire(next));
    if LF !in sock {
      q := p;
      CutBeforeTrailers(b.trailers, |rem|);
      LoopAtSize(sock, got, 0);
    } else {
      SizeLineIsRead(c);
      LoopAtSize(sock, got, SizeAt(next));
      q := LoopReads(next, sock[LineEnd(sock)..], rem, got);
    }
  }

  // ---- All deliveries of a body. ----

  /** With e bytes still to come after the last one, no delivery ends within a line of the trailer. */
  predicate CutsSafe(ts: seq<seq<byte>>, ds: seq<seq<byte>>, e: nat)
    decreases |ds|
  {
    ds == [] || (SafeCut(ts, |Flatten(ds[1..])| + e) && CutsSafe(ts, ds[1..], e))
  }

  lemma {:induction false} EndIsSafe(ts: seq<seq<byte>>)
    ensures AtLineStart(ts, 0)
  {
    if ts != [] {
      EndIsSafe(ts[1..]);
    }
  }

  lemma {:induction false} SameCuts(ts: seq<seq<byte>>, us: seq<seq<byte>>, ds: seq<seq<byte>>, e: nat, bound: nat)
    requires |Flatten(ds)| + e <= bound
    requires forall i: nat | i <= bound :: SafeCut(ts, i) == SafeCut(us, i)
    ensures CutsSafe(ts, ds, e) == CutsSafe(us, ds, e)
    decreases |ds|
  {
    hide SafeCut;
    if ds != [] {
      SameCuts(ts, us, ds[1..], e, bound);
    }
  }

  lemma {:induction false} DerailedStays(o: Outcome, data: seq<byte>, ds: seq<seq<byte>>)
    requires Derailed(o, data)
    ensures Derailed(Run(o, ds), data)
    decreases |ds|
  {
    hide Loop;
    if ds != [] {
      var more := ds[0];
      assert [] + more == more;
      if more == [] {
        NothingToRead(o.cs, o.got);
      } else {
        LoopIsReadData(o.cs, more, o.got);
        assert more[|more|..] == [] && more[..|more|] == more;
        NothingToRead(o.cs - |more|, o.got + more);
      }
      DerailedStays(Deliver(o, more), data, ds[1..]);
    }
  }

  lemma {:induction false} FinishedStays(o: Outcome, ds: seq<seq<byte>>, ts: seq<seq<byte>>)
    requires o.Finished? && Flatten(ds) == []
    ensures Run(o, ds) == o && CutsSafe(ts, ds, 0)
    decreases |ds|
  {
    if ds != [] {
      EndIsSafe(ts);
      FinishedStays(o, ds[1..], ts);
    }
  }

  /** Any deliveries of what comes from position p on, with the rest rem still under way. */
  lemma {:induction false} RunReads(p: Position, sock: seq<byte>, ds: seq<seq<byte>>, rem: seq<byte>, got: seq<byte>)
    returns (q: Position)
    requires ValidPosition(p) && ds != [] && sock + Flatten(ds) + rem == Wire(p)
    ensures var o := Run(Waiting(SizeAt(p), sock, got), ds);
            if !CutsSafe(TrailersIn(p), ds, |rem|) then Derailed(o, got + DataIn(p))
            else if rem == [] then o == Finished([], got + DataIn(p))
            else StandsAt(o, q, p, rem, got)
    decreases |ds|
  {
    hide Wire, DataIn, TrailersIn, SizeAt, ValidPosition, SafeCut, Loop;
    var first, later := Waiting(SizeAt(p), sock, got), Flatten(ds[1..]) + rem;
    var sock' := sock + ds[0];
    assert sock' + later == sock + (ds[0] + Flatten(ds[1..])) + rem;
    q := LoopReads(p, sock', later, got);
    var o := Deliver(first, ds[0]);
    assert o == Loop(SizeAt(p), sock', got);
    assert Run(first, ds) == Run(o, ds[1..]);
    assert |later| == |Flatten(ds[1..])| + |rem|;
    if later == [] {
      NothingLeft(TrailersIn(p));
      assert Flatten(ds[1..]) == [] == rem;
      FinishedStays(o, ds[1..], TrailersIn(p));
      assert CutsSafe(TrailersIn(p), ds, |rem|);
    } else if !SafeCut(TrailersIn(p), |later|) {
      DerailedStays(o, got + DataIn(p), ds[1..]);
      assert Derailed(Run(first, ds), got + DataIn(p));
    } else if ds[1..] != [] {
      var q' := RunReads(q, o.sock, ds[1..], rem, o.got);
      SameCuts(TrailersIn(q), TrailersIn(p), ds[1..], |rem|, |later|);
      assert o.got + DataIn(q) == got + DataIn(p);
      assert CutsSafe(TrailersIn(p), ds, |rem|) == CutsSafe(TrailersIn(p), ds[1..], |rem|);
      q := q';
    } else {
      assert CutsSafe(TrailersIn(p), ds, |rem|);
    }
  }

  lemma NothingLeft(ts: seq<seq<byte>>)
    ensures SafeCut(ts, 0)
  {
    EndIsSafe(ts);
  }

  /**
   However a chunked body is split over calls, the decoder is done with exactly the data of its chunks if
   and only if no delivery ends strictly within a line after the last-chunk line. Otherwise it is never
   done: it waits for ever, and has stored part of the trailer behind the data.
   */
  lemma BodyIsDecoded(b: Body, ds: seq<seq<byte>>)
    requires WellFormed(b) && Flatten(ds) == EncodeBody(b)
    ensures Run(Waiting(0, [], []), ds) == Finished([], DataOf(b)) <==> CutsSafe(b.trailers, ds, 0)
    ensures !CutsSafe(b.trailers, ds, 0) ==> Derailed(Run(Waiting(0, [], []), ds), DataOf(b))
  {
    hide EncodeBody, DataOf, Run, CutsSafe;
    BodyBehind(b);
    assert [] + Flatten(ds) + [] == EncodeBody(b);
    assert [] + DataOf(b) == DataOf(b);
    var q := RunReads(AtSize(b), [], ds, [], []);
  }

  /** Before its last byte has arrived a body is never taken to be complete or wrong, however it is split. */
  lemma NeverTooEarly(b: Body, ds: seq<seq<byte>>, rem: seq<byte>)
    requires WellFormed(b) && Flatten(ds) + rem == EncodeBody(b) && rem != []
    ensures Run(Waiting(0, [], []), ds).Waiting?
    ensures CutsSafe(b.trailers, ds, |rem|) ==> Run(Waiting(0, [], []), ds).got <= DataOf(b)
  {
    hide EncodeBody, DataOf, CutsSafe, Loop, WellFormed, SafeCut, Flatten;
    if ds != [] {
      hide Run;
      assert [] + Flatten(ds) + rem == EncodeBody(b);
      assert [] + DataOf(b) == DataOf(b);
      var q := RunReads(AtSize(b), [], ds, rem, []);
      var o := Run(Waiting(0, [], []), ds);
      if CutsSafe(b.trailers, ds, |rem|) {
        assert o.got + DataIn(q) == DataOf(b);
      }
    }
  }

  lemma {:induction false} LastByteIsUnsafe(ts: seq<seq<byte>>)
    ensures !SafeCut(ts, 1) && |EncodeTrailers(ts)| >= 2
  {
    if ts != [] {
      LastByteIsUnsafe(ts[1..]);
    }
  }

  /** There is no body that survives the delivery of its last byte, a line feed, on its own. */
  lemma LastByteOnItsOwn(b: Body, ds: seq<seq<byte>>)
    requires WellFormed(b) && Flatten(ds) + [LF] == EncodeBody(b) && ds != []
    ensures Derailed(Run(Waiting(0, [], []), ds + [[LF]]), DataOf(b))
  {
    FlattenAppend(ds, [[LF]]);
    assert Flatten([[LF]]) == [LF];
    CutBeforeLast(b.trailers, ds);
    BodyIsDecoded(b, ds + [[LF]]);
  }

  lemma {:induction false} CutBeforeLast(ts: seq<seq<byte>>, ds: seq<seq<byte>>)
    requires ds != []
    ensures !CutsSafe(ts, ds + [[LF]], 0)
    decreases |ds|
  {
    LastByteIsUnsafe(ts);
    var all := ds + [[LF]];
    assert all[1..] == ds[1..] + [[LF]];
    if |ds| == 1 {
      assert all[1..] == [[LF]];
      assert Flatten([[LF]]) == [LF];
    } else {
      CutBeforeLast(ts, ds[1..]);
    }
  }
}
