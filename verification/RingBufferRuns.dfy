/** On every run the ring buffer cannot be told from one flat sequence of bytes. */
module RingBufferRuns {
  import opened Bytes
  import opened Numbers
  import opened RingBuffer

  datatype Op =
    | Append(data: seq<byte>)
    | PutChar(c: byte)
    | UngetChar(c: byte)
    | GetChar
    | Free(n: nat)
    | Read(maxLength: int)
    | Skip(length: int)
    | ReadLine(n: nat)
    | Chop(n: nat)
    | Truncate(pos: int)
    | Clear
    | Peek(length: int)
    | IndexOf(c: byte)
    | CanReadLine
    | Size
    | IsEmpty

  datatype Reply = Nothing | Number(i: int) | Flag(b: bool) | Data(bytes: seq<byte>) | Line(r: int, bytes: seq<byte>)

  function First(s: seq<byte>, c: byte): (i: int)
    ensures -1 <= i < |s|
  {
    if s == [] then -1
    else if s[0] == c then 0
    else if First(s[1..], c) == -1 then -1 else 1 + First(s[1..], c)
  }

  lemma {:induction false} FirstIs(s: seq<byte>, c: byte, i: int)
    requires -1 <= i < |s|
    requires if i == -1 then c !in s else s[i] == c && c !in s[..i]
    ensures First(s, c) == i
  {
    if s != [] && i != 0 {
      assert s[0] != c by { assert i > 0 ==> s[0] == s[..i][0]; }
      assert i > 0 ==> s[1..][..i - 1] == s[..i][1..];
      FirstIs(s[1..], c, if i == -1 then -1 else i - 1);
    }
  }

  /**
   What readLine takes, with room for n: without a line end as much as fits; with one, what fits in front of the
   terminator, up to and including the first line end; and -1 without any room for that.
   */
  lemma LineIsRead(s: seq<byte>, n: int)
    ensures var r := QRingBuffer.LineLength(s, First(s, 10), n);
            if 10 !in s then r == Max(0, Min(|s|, n))
            else if n <= 0 then r == -1
            else
              && 0 <= r < n && r <= |s| && (r < n - 1 ==> r > 0 && s[r - 1] == 10)
              && (r > 0 ==> 10 !in s[..r - 1])
  {
    FirstIsFirst(s, 10);
  }

  lemma {:induction false} FirstIsFirst(s: seq<byte>, c: byte)
    ensures var i := First(s, c); if i == -1 then c !in s else s[i] == c && c !in s[..i]
  {
    if s != [] && s[0] != c {
      FirstIsFirst(s[1..], c);
      var i := First(s, c);
      if i > 0 {
        assert s[..i] == [s[0]] + s[1..][..i - 1];
      } else {
        assert s == [s[0]] + s[1..];
      }
    }
  }

  /** The bytes that op takes from the front of a flat sequence. */
  function Taken(s: seq<byte>, op: Op): (k: nat)
    ensures k <= |s|
  {
    match op
    case GetChar => Min(1, |s|)
    case Free(n) => Min(n, |s|)
    case Read(n) => Max(0, Min(n, |s|))
    case Skip(n) => Max(0, Min(n, |s|))
    case ReadLine(n) => Max(0, QRingBuffer.LineLength(s, First(s, 10), n))
    case Clear => |s|
    case _ => 0
  }

  /** What op leaves of a flat sequence. */
  function After(s: seq<byte>, op: Op): seq<byte> {
    match op
    case Append(data) => s + data
    case PutChar(c) => s + [c]
    case UngetChar(c) => [c] + s
    case Chop(n) => s[..Max(0, |s| - n)]
    case Truncate(n) => s[..Min(Max(n, 0), |s|)]
    case _ => s[Taken(s, op)..]
  }

  /** What op answers on a flat sequence. */
  function Answer(s: seq<byte>, op: Op): Reply {
    match op
    case GetChar => Number(if s == [] then -1 else s[0] as int)
    case Read(_) => Data(s[..Taken(s, op)])
    case Skip(_) => Number(Taken(s, op))
    case ReadLine(n) => Line(QRingBuffer.LineLength(s, First(s, 10), n), s[..Taken(s, op)])
    case Peek(n) => Data(s[..Max(0, Min(|s|, n))])
    case IndexOf(c) => Number(First(s, c))
    case CanReadLine => Flag(10 in s)
    case Size => Number(|s|)
    case IsEmpty => Flag(s == [])
    case _ => Nothing
  }

  function Answers(s: seq<byte>, ops: seq<Op>): seq<Reply>
    decreases |ops|
  {
    if ops == [] then [] else [Answer(s, ops[0])] + Answers(After(s, ops[0]), ops[1..])
  }

  method DoReadLine(b: QRingBuffer, n: nat) returns (reply: Reply)
    requires b.Valid()
    modifies b
    ensures b.Valid() && b.Contents() == After(old(b.Contents()), ReadLine(n))
    ensures reply == Answer(old(b.Contents()), ReadLine(n))
  {
    hide Denote, QRingBuffer.Valid, QRingBuffer.Contents, First;
    ghost var s := b.Contents();
    var data := new byte[n];
    var r, index := b.ReadLine(data, n);
    FirstIs(s, 10, index);
    if r < 0 {
      reply := Line(r, []);
    } else {
      assert data[..r] == data[..][..r] == s[..r];
      reply := Line(r, data[..r]);
    }
  }

  method DoIndexOf(b: QRingBuffer, c: byte) returns (reply: Reply)
    requires b.Valid()
    ensures reply == Answer(b.Contents(), IndexOf(c))
  {
    hide Denote;
    var i := b.IndexOf(c);
    FirstIs(b.Contents(), c, i);
    reply := Number(i);
  }

  /** The operations that give something back. */
  method Query(b: QRingBuffer, op: Op) returns (reply: Reply)
    requires b.Valid()
    modifies b
    ensures b.Valid() && (Answer(old(b.Contents()), op) != Nothing ==>
              b.Contents() == After(old(b.Contents()), op) && reply == Answer(old(b.Contents()), op))
    ensures Answer(old(b.Contents()), op) == Nothing ==> b.Contents() == old(b.Contents()) && reply == Nothing
  {
    hide Denote, QRingBuffer.Valid, QRingBuffer.Contents, First, QRingBuffer.LineLength;
    reply := Nothing;
    match op {
      case GetChar =>
        var c := b.GetChar();
        reply := Number(c);
      case Read(n) =>
        var bytes := b.ReadBytes(n);
        reply := Data(bytes);
      case Skip(n) =>
        var k := b.Skip(n);
        reply := Number(k);
      case ReadLine(n) =>
        reply := DoReadLine(b, n);
      case Peek(n) =>
        var bytes := b.Peek(n);
        reply := Data(bytes);
      case IndexOf(c) =>
        reply := DoIndexOf(b, c);
      case CanReadLine =>
        var can := b.CanReadLine();
        reply := Flag(can);
      case Size =>
        reply := Number(b.Size());
      case IsEmpty =>
        reply := Flag(b.IsEmpty());
      case _ =>
    }
  }

  method Perform(b: QRingBuffer, op: Op) returns (reply: Reply)
    requires b.Valid()
    modifies b
    ensures b.Valid() && b.Contents() == After(old(b.Contents()), op) && reply == Answer(old(b.Contents()), op)
  {
    hide Denote, First, QRingBuffer.LineLength;
    reply := Nothing;
    match op {
      case Append(data) => b.Append(data);
      case PutChar(c) => b.PutChar(c);
      case UngetChar(c) => b.UngetChar(c);
      case Free(n) => b.Free(n);
      case Chop(n) => b.Chop(n);
      case Truncate(n) => b.Truncate(n);
      case Clear => b.Clear();
      case _ => reply := Query(b, op);
    }
  }

  /** For every block size and every run of operations the replies are those of a flat sequence. */
  method Replay(growth: nat, ops: seq<Op>) returns (replies: seq<Reply>)
    requires growth > 0
    ensures replies == Answers([], ops)
  {
    hide Denote, QRingBuffer.Valid, QRingBuffer.Contents, After, Answer;
    var b := new QRingBuffer(growth);
    replies := [];
    for i := 0 to |ops|
      invariant b.Valid() && fresh(b)
      invariant replies + Answers(b.Contents(), ops[i..]) == Answers([], ops)
    {
      ghost var s := b.Contents();
      assert Answers(s, ops[i..]) == [Answer(s, ops[i])] + Answers(After(s, ops[i]), ops[i..][1..]);
      assert ops[i..][1..] == ops[i + 1..];
      var reply := Perform(b, ops[i]);
      replies := replies + [reply];
    }
  }
}
