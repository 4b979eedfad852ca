/**
 The chunked-body decoder inside QHttpPrivate::_q_slotReadyRead (qhttp.cpp), on values, and the chunked
 transfer coding of section 4.1 of RFC 7230.
 */
module ChunkedModel {
  import opened Bytes
  import opened Modbus

  const LF: byte := 10
  const CR: byte := 13
  const SEMICOLON: byte := 59

  const CRLF: seq<byte> := [13, 10]

  // ---- Numbers: QString::toInt(&ok, 16). ----

  predicate IsSpace(b: byte) {
    9 <= b <= 13 || b == 32 || b == 0x85 || b == 0xA0
  }

  predicate IsHex(b: byte) {
    48 <= b <= 57 || 65 <= b <= 70 || 97 <= b <= 102
  }

  function HexDigit(b: byte): nat
    requires IsHex(b)
  {
    if b <= 57 then b - 48 else if b <= 70 then b - 55 else b - 87
  }

  predicate AllHex(s: seq<byte>) {
    forall i | 0 <= i < |s| :: IsHex(s[i])
  }

  predicate AllSpace(s: seq<byte>) {
    forall i | 0 <= i < |s| :: IsSpace(s[i])
  }

  function HexValue(s: seq<byte>): nat
    requires AllHex(s)
  {
    if s == [] then 0 else 16 * HexValue(s[..|s| - 1]) + HexDigit(s[|s| - 1])
  }

  function TrimLeft(s: seq<byte>): seq<byte> {
    if s != [] && IsSpace(s[0]) then TrimLeft(s[1..]) else s
  }

  function TrimRight(s: seq<byte>): seq<byte> {
    if s != [] && IsSpace(s[|s| - 1]) then TrimRight(s[..|s| - 1]) else s
  }

  function WithoutSign(t: seq<byte>): seq<byte> {
    if t != [] && (t[0] == 43 || t[0] == 45) then t[1..] else t
  }

  function WithoutPrefix(u: seq<byte>): seq<byte> {
    if |u| >= 2 && u[0] == 48 && (u[1] == 120 || u[1] == 88) then u[2..] else u
  }

  /** White space around the number, a sign and the prefix 0x are accepted; the value must be a 32-bit int. */
  function ToInt16(s: seq<byte>): Option<int> {
    var t := TrimRight(TrimLeft(s));
    var d := WithoutPrefix(WithoutSign(t));
    if d == [] || !AllHex(d) then None
    else
      var h: int := HexValue(d);
      var v := if t != [] && t[0] == 45 then -h else h;
      if -0x8000_0000 <= v <= 0x7FFF_FFFF then Some(v) else None
  }

  // ---- Lines. ----

  /** The length of the first line with its line feed. */
  function LineEnd(s: seq<byte>): (n: nat)
    requires LF in s
    ensures 0 < n <= |s|
  {
    if s[0] == LF then 1 else 1 + LineEnd(s[1..])
  }

  function UpTo(s: seq<byte>, b: byte): seq<byte> {
    if s == [] || s[0] == b then [] else [s[0]] + UpTo(s[1..], b)
  }

  /** The trailer loop: lines are skipped until a blank one, as long as there are whole lines. */
  function ReadTrailer(sock: seq<byte>): (r: (int, seq<byte>))
    ensures |r.1| <= |sock| && (r.0 == -1 || r.0 == -2)
  {
    if LF !in sock then (-2, sock)
    else
      var n := LineEnd(sock);
      if sock[..n] == CRLF || sock[..n] == [LF] then (-1, sock[n..]) else ReadTrailer(sock[n..])
  }

  // ---- The decoder. ----

  datatype Outcome =
    | Waiting(cs: int, sock: seq<byte>, got: seq<byte>)
    | Finished(sock: seq<byte>, got: seq<byte>)
    | Failed

  /** The size line: the new chunkedSize, or None if it is not a number. */
  function SizeOf(line: seq<byte>): Option<int> {
    match ToInt16(UpTo(line, SEMICOLON))
    case None => None
    case Some(v) => Some(if v == 0 then -2 else v)
  }

  /**
   The loop, from the point where a chunk size is needed or known: cs is chunkedSize, sock what the
   socket holds, got what this call has read so far.
   */
  function Loop(cs: int, sock: seq<byte>, got: seq<byte>): Outcome
    decreases |sock|, 2
  {
    if cs == 0 then
      if LF !in sock then Waiting(0, sock, got)
      else
        match SizeOf(sock[..LineEnd(sock)])
        case None => Failed
        case Some(v) => AfterSize(v, sock[LineEnd(sock)..], got)
    else AfterSize(cs, sock, got)
  }

  function AfterSize(cs: int, sock: seq<byte>, got: seq<byte>): Outcome
    requires cs != 0
    decreases |sock|, 1
  {
    if cs == -1 then Finished(sock, got)
    else if cs == -2 then
      var (next, rest) := ReadTrailer(sock);
      if next == -1 then Finished(rest, got)
      else ReadData(-2, rest, got)
    else ReadData(cs, sock, got)
  }

  /** Reads what there is of a chunk, but leaves its last byte until its CRLF can be read as well. */
  function ReadData(cs: int, sock: seq<byte>, got: seq<byte>): Outcome
    requires cs != 0
    decreases |sock|, 0
  {
    var avail := |sock|;
    if avail == 0 then Waiting(cs, sock, got)
    else
      var n := if avail == cs || avail == cs + 1 then cs - 1 else avail;
      if n == 0 then Waiting(cs, sock, got)
      else
        var toRead := if cs < 0 then n else if n < cs then n else cs;
        var rest := sock[toRead..];
        var left := cs - toRead;
        if left == 0 && n - toRead >= 2 then
          if rest[..2] != CRLF then Failed else Loop(0, rest[2..], got + sock[..toRead])
        else Loop(left, rest, got + sock[..toRead])
  }

  /** readyRead: more bytes are in the socket, and the loop starts again with chunkedSize as it was left. */
  function Deliver(o: Outcome, data: seq<byte>): Outcome {
    match o
    case Waiting(cs, sock, got) => Loop(cs, sock + data, got)
    case _ => o
  }

  function Run(o: Outcome, deliveries: seq<seq<byte>>): Outcome
    decreases |deliveries|
  {
    if deliveries == [] then o else Run(Deliver(o, deliveries[0]), deliveries[1..])
  }

  // ---- Chunked bodies. ----

  /** A chunk: hexadecimal digits, white space, an extension, and the data. */
  datatype Chunk = Chunk(digits: seq<byte>, space: seq<byte>, ext: seq<byte>, data: seq<byte>)

  /** A body: its chunks, the last chunk (its data is empty), and the trailer lines. */
  datatype Body = Body(chunks: seq<Chunk>, last: Chunk, trailers: seq<seq<byte>>)

  function SizeText(c: Chunk): seq<byte> {
    c.digits + c.space + c.ext
  }

  // The hexadecimal digits, in the order of their values.
  const LOWER_CASE := "0123456789abcdef"
  const UPPER_CASE := "0123456789ABCDEF"

  /** b is a digit for k. */
  predicate IsDigit(b: byte, k: nat)
    requires k < 16
  {
    b == LOWER_CASE[k] as int || b == UPPER_CASE[k] as int
  }

  /** s writes n, with digits of either case and any leading zeros. */
  predicate IsNumeral(s: seq<byte>, n: nat) {
    if s == [] then n == 0 else IsDigit(s[|s| - 1], n % 16) && IsNumeral(s[..|s| - 1], n / 16)
  }

  /** White space in Latin-1. */
  const WHITE_SPACE: set<byte> := {9, 10, 11, 12, 13, 32, 0x85, 0xA0}

  predicate IsBlank(s: seq<byte>) {
    forall b | b in s :: b in WHITE_SPACE
  }

  /** n in the digits of an alphabet, without leading zeros. */
  function HexText(n: nat, alphabet: string): seq<byte>
    requires alphabet == LOWER_CASE || alphabet == UPPER_CASE
  {
    (if n < 16 then [] else HexText(n / 16, alphabet)) + [AsByte(alphabet[n % 16])]
  }

  function AsByte(c: char): byte {
    c as int % 0x100
  }

  predicate WellFormedChunk(c: Chunk) {
    && c.digits != [] && IsBlank(c.space)
    && (c.ext != [] ==> c.ext[0] == ';' as int)
    && LF !in SizeText(c)
    && |c.data| <= 0x7FFF_FFFF && IsNumeral(c.digits, |c.data|)
  }

  predicate WellFormedTrailers(ts: seq<seq<byte>>) {
    forall i | 0 <= i < |ts| :: ts[i] != [] && LF !in ts[i]
  }

  predicate WellFormed(b: Body) {
    && (forall i | 0 <= i < |b.chunks| :: WellFormedChunk(b.chunks[i]) && b.chunks[i].data != [])
    && WellFormedChunk(b.last) && b.last.data == []
    && WellFormedTrailers(b.trailers)
  }

  function EncodeTrailers(ts: seq<seq<byte>>): seq<byte> {
    if ts == [] then CRLF else ts[0] + CRLF + EncodeTrailers(ts[1..])
  }

  function EncodeBody(b: Body): seq<byte>
    decreases |b.chunks|
  {
    if b.chunks == [] then SizeText(b.last) + CRLF + EncodeTrailers(b.trailers)
    else SizeText(b.chunks[0]) + CRLF + b.chunks[0].data + CRLF + EncodeBody(b.(chunks := b.chunks[1..]))
  }

  /** The batch decoding: the data of all chunks. */
  function DataOf(b: Body): seq<byte>
    decreases |b.chunks|
  {
    if b.chunks == [] then [] else b.chunks[0].data + DataOf(b.(chunks := b.chunks[1..]))
  }
}
