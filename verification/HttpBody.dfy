/** Reading the body of a response (qhttp.cpp): the socket, the chunk decoder, and the buffer the user reads from. */
module HttpBody {
  import opened Bytes
  import opened Numbers
  import opened ChunkedModel
  import opened RingBuffer

  /** o, with data stored in front of what it has stored. */
  function Behind(data: seq<byte>, o: Outcome): Outcome {
    match o
    case Waiting(cs, sock, got) => Waiting(cs, sock, data + got)
    case Finished(sock, got) => Finished(sock, data + got)
    case Failed => Failed
  }

  /** What was stored before does not influence the decoder. */
  lemma {:induction false} LoopBehind(cs: int, sock: seq<byte>, data: seq<byte>, got: seq<byte>)
    ensures Loop(cs, sock, data + got) == Behind(data, Loop(cs, sock, got))
    decreases |sock|, 2
  {
    if cs == 0 {
      if LF in sock {
        match SizeOf(sock[..LineEnd(sock)])
        case None =>
        case Some(v) => AfterSizeBehind(v, sock[LineEnd(sock)..], data, got);
      }
    } else {
      AfterSizeBehind(cs, sock, data, got);
    }
  }

  lemma {:induction false} AfterSizeBehind(cs: int, sock: seq<byte>, data: seq<byte>, got: seq<byte>)
    requires cs != 0
    ensures AfterSize(cs, sock, data + got) == Behind(data, AfterSize(cs, sock, got))
    decreases |sock|, 1
  {
    if cs == -2 {
      ReadDataBehind(-2, ReadTrailer(sock).1, data, got);
    } else if cs != -1 {
      ReadDataBehind(cs, sock, data, got);
    }
  }

  lemma {:induction false} ReadDataBehind(cs: int, sock: seq<byte>, data: seq<byte>, got: seq<byte>)
    requires cs != 0
    ensures ReadData(cs, sock, data + got) == Behind(data, ReadData(cs, sock, got))
    decreases |sock|, 0
  {
    var avail := |sock|;
    if avail > 0 {
      var n := if avail == cs || avail == cs + 1 then cs - 1 else avail;
      if n != 0 {
        var k := if cs < 0 then n else if n < cs then n else cs;
        var rest, left := sock[k..], cs - k;
        assert data + got + sock[..k] == data + (got + sock[..k]);
        if left == 0 && n - k >= 2 {
          if rest[..2] == CRLF {
            LoopBehind(0, rest[2..], data, got + sock[..k]);
          }
        } else {
          LoopBehind(left, rest, data, got + sock[..k]);
        }
      }
    }
  }

  class QHttp {
    var socket: seq<byte>  // what has arrived and was not read
    var chunkedSize: int
    var bytesDone: int
    const rba: QRingBuffer
    ghost var given: seq<byte>  // what read has handed out

    ghost predicate Valid()
      reads this, rba
    {
      rba.Valid()
    }

    /** All the bytes of the body that have been stored so far. */
    ghost function Stored(): seq<byte>
      reads this, rba
      requires Valid()
    {
      given + rba.Contents()
    }

    /** The response header of a chunked body has been read. */
    constructor (growth: nat)
      requires growth > 0
      ensures Valid() && fresh(rba) && chunkedSize == 0 && socket == [] && given == [] && rba.Contents() == []
    {
      socket, chunkedSize, bytesDone := [], 0, 0;
      rba := new QRingBuffer(growth);
      given := [];
    }

    method ReadLine() returns (line: seq<byte>)
      requires LF in socket
      modifies this`socket
      ensures line == old(socket)[..LineEnd(old(socket))]
      ensures socket == old(socket)[LineEnd(old(socket))..]
    {
      var i := 0;
      while socket[i] != LF
        invariant 0 <= i < |socket| && LF in socket[i..]
        invariant LineEnd(socket) == i + LineEnd(socket[i..])
        decreases |socket| - i
      {
        assert socket[i..][1..] == socket[i + 1..];
        i := i + 1;
      }
      assert socket[i..][0] == LF;
      line := socket[..i + 1];
      socket := socket[i + 1..];
    }

    method ReadTrailerLines()
      requires chunkedSize == -2
      modifies this`socket, this`chunkedSize
      ensures (chunkedSize, socket) == ReadTrailer(old(socket))
    {
      while chunkedSize == -2 && LF in socket
        invariant if chunkedSize == -2 then ReadTrailer(socket) == ReadTrailer(old(socket))
                  else (chunkedSize, socket) == ReadTrailer(old(socket))
        decreases |socket|
      {
        var read := ReadLine();
        if read == CRLF || read == [LF] {
          chunkedSize := -1;
        }
      }
    }

    method ReadSocket(n: nat) returns (bytes: seq<byte>)
      requires n <= |socket|
      modifies this`socket
      ensures bytes == old(socket)[..n] && socket == old(socket)[n..]
    {
      bytes := socket[..n];
      socket := socket[n..];
    }

    /** The size line; ok is false if it holds no number. */
    method ReadSize() returns (ok: bool)
      requires LF in socket
      modifies this`socket, this`chunkedSize
      ensures socket == old(socket)[LineEnd(old(socket))..]
      ensures var size := SizeOf(old(socket)[..LineEnd(old(socket))]);
              ok == size.Some? && (ok ==> chunkedSize == size.value != 0)
    {
      var sizeString := ReadLine();
      match ToInt16(UpTo(sizeString, SEMICOLON)) {
        case None =>
          ok := false;
        case Some(v) =>
          ok := true;
          chunkedSize := v;
          if chunkedSize == 0 {
            chunkedSize := -2;
          }
      }
    }

    /** Reads chunk data; again tells whether there may be more to read. */
    method ReadChunkData(was: seq<byte>) returns (arr: seq<byte>, again: bool, error: bool)
      requires chunkedSize != 0
      modifies this`socket, this`chunkedSize
      ensures again ==> |socket| < |old(socket)|
      ensures ReadData(old(chunkedSize), old(socket), was)
              == if error then Failed else if again then Loop(chunkedSize, socket, arr)
                 else Waiting(chunkedSize, socket, arr)
    {
      hide Loop;
      arr, again, error := was, false, false;
      var n := |socket|;
      if n == 0 {
        return;
      }
      if n == chunkedSize || n == chunkedSize + 1 {
        n := chunkedSize - 1;
        if n == 0 {
          return;
        }
      }
      var toRead := if chunkedSize < 0 then n else Min(n, chunkedSize);
      var read := ReadSocket(toRead);
      arr, again := arr + read, true;
      chunkedSize := chunkedSize - toRead;
      if chunkedSize == 0 && n - toRead >= 2 {
        var tmp := ReadSocket(2);
        error := tmp != CRLF;
      }
    }

    /** The chunk loop: what it reads, and whether it has come to the end of the body or to an error. */
    method ReadChunks() returns (arr: seq<byte>, everythingRead: bool, error: bool)
      modifies this`socket, this`chunkedSize
      ensures !(everythingRead && error)
      ensures Loop(old(chunkedSize), old(socket), [])
              == if error then Failed else if everythingRead then Finished(socket, arr)
                 else Waiting(chunkedSize, socket, arr)
    {
      hide SizeOf, ReadTrailer, LineEnd, ReadData;
      arr, everythingRead, error := [], false, false;
      while true
        invariant !everythingRead && !error
        invariant Loop(old(chunkedSize), old(socket), []) == Loop(chunkedSize, socket, arr)
        decreases |socket|
      {
        if chunkedSize == 0 {
          if LF !in socket {
            break;
          }
          var ok := ReadSize();
          if !ok {
            error := true;
            return;
          }
        }
        assert Loop(old(chunkedSize), old(socket), []) == AfterSize(chunkedSize, socket, arr);
        if chunkedSize == -2 {
          ReadTrailerLines();
        }
        if chunkedSize == -1 {
          everythingRead := true;
          break;
        }
        assert Loop(old(chunkedSize), old(socket), []) == ReadData(chunkedSize, socket, arr);
        var again;
        arr, again, error := ReadChunkData(arr);
        if error {
          return;
        }
        if !again {
          break;
        }
      }
    }

    /**
     readyRead, for a chunked body: one step of the decoder on everything stored so far, whatever the user
     has read in between. After an error the data of this call is dropped.
     */
    method SlotReadyRead(data: seq<byte>) returns (everythingRead: bool, error: bool)
      requires Valid()
      modifies this`socket, this`chunkedSize, rba
      ensures Valid() && !(everythingRead && error) && (error ==> Stored() == old(Stored()))
      ensures Deliver(old(Waiting(chunkedSize, socket, Stored())), data)
              == if error then Failed else if everythingRead then Finished(socket, Stored())
                 else Waiting(chunkedSize, socket, Stored())
    {
      hide Loop;
      ghost var o := Waiting(chunkedSize, socket, Stored());
      socket := socket + data;
      LoopBehind(chunkedSize, socket, Stored(), []);
      assert Stored() + [] == Stored();
      var arr;
      arr, everythingRead, error := ReadChunks();
      if !error {
        assert given + (rba.Contents() + arr) == given + rba.Contents() + arr;
        if arr != [] {
          rba.Append(arr);
        }
      }
    }

    /** The copy loop of read, block by block. */
    method CopyOut(data: array<byte>, maxlen: int)
      requires Valid() && maxlen <= data.Length && maxlen <= |rba.Contents()|
      modifies rba, data
      ensures Valid() && rba.Contents() == old(rba.Contents())[Max(0, maxlen)..]
      ensures data[..] == old(rba.Contents())[..Max(0, maxlen)] + old(data[Max(0, maxlen)..])
    {
      hide Denote, QRingBuffer.Valid, QRingBuffer.Contents;
      ghost var all := rba.Contents();
      ghost var was := data[..];
      var readSoFar := 0;
      while !rba.IsEmpty() && readSoFar < maxlen
        invariant Valid() && 0 <= readSoFar <= Max(0, maxlen)
        invariant rba.Contents() == all[readSoFar..]
        invariant data[..] == all[..readSoFar] + was[readSoFar..]
        decreases maxlen - readSoFar
      {
        var nextBlockSize := rba.NextDataBlockSize();
        var bytesToRead := Min(maxlen - readSoFar, nextBlockSize);
        ghost var now := data[..];
        rba.CopyBlock(data, readSoFar, bytesToRead);
        ReadStep(all, was, now, data[..], readSoFar, bytesToRead);
        rba.Free(bytesToRead);
        readSoFar := readSoFar + bytesToRead;
      }
    }

    /** read(char *data, qint64 maxlen): the next bytes of the body; nothing else changes. */
    method Read(data: array<byte>, maxlen: int) returns (n: int)
      requires Valid() && maxlen <= data.Length
      modifies this`bytesDone, this`given, rba, data
      ensures Valid() && Stored() == old(Stored())
      ensures n == Min(maxlen, |old(rba.Contents())|) && bytesDone == old(bytesDone) + n
      ensures given == old(given) + old(rba.Contents())[..Max(0, n)]
      ensures data[..] == old(rba.Contents())[..Max(0, n)] + old(data[Max(0, n)..])
    {
      hide Denote;
      ghost var all := rba.Contents();
      n := if maxlen >= rba.Size() then rba.Size() else maxlen;
      CopyOut(data, n);
      given := given + all[..Max(0, n)];
      assert all == all[..Max(0, n)] + all[Max(0, n)..];
      bytesDone := bytesDone + n;
    }

    method ReadAll() returns (bytes: seq<byte>)
      requires Valid()
      modifies this`bytesDone, this`given, rba
      ensures Valid() && Stored() == old(Stored()) && rba.Contents() == []
      ensures bytes == old(rba.Contents()) && given == old(given) + bytes
    {
      var avail := rba.Size();
      var tmp := new byte[avail];
      var got := Read(tmp, avail);
      bytes := tmp[..];
    }
  }
}
