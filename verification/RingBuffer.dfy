/**
 The ring buffer of the bundled HTTP client (qringbuffer_p.h): a list of blocks with a cursor into the
 first and one into the last block, which stands for one flat sequence of bytes.
 */
module RingBuffer {
  import opened Bytes
  import opened Numbers

  /** The cursors lie within the first and the last block. */
  predicate InBounds(blocks: seq<seq<byte>>, head: int, tail: int) {
    && |blocks| > 0
    && 0 <= head <= |blocks[0]|
    && 0 <= tail <= |blocks[|blocks| - 1]|
    && (|blocks| == 1 ==> head <= tail)
  }

  /** The bytes that blocks stand for, from head in the first one to tail in the last one. */
  function Denote(blocks: seq<seq<byte>>, head: int, tail: int): seq<byte>
    requires InBounds(blocks, head, tail)
  {
    if |blocks| == 1 then blocks[0][head..tail]
    else blocks[0][head..] + Denote(blocks[1..], 0, tail)
  }

  lemma DenoteOne(b: seq<byte>, head: int, tail: int)
    requires 0 <= head <= tail <= |b|
    ensures Denote([b], head, tail) == b[head..tail]
  {
  }

  lemma DenoteCons(blocks: seq<seq<byte>>, head: int, tail: int)
    requires InBounds(blocks, head, tail) && |blocks| > 1
    ensures InBounds(blocks[1..], 0, tail)
    ensures Denote(blocks, head, tail) == blocks[0][head..] + Denote(blocks[1..], 0, tail)
  {
  }

  lemma {:induction false} DenoteSnoc(blocks: seq<seq<byte>>, b: seq<byte>, head: int, tail: int)
    requires |blocks| > 0 && InBounds(blocks, head, |blocks[|blocks| - 1]|) && 0 <= tail <= |b|
    ensures InBounds(blocks + [b], head, tail)
    ensures Denote(blocks + [b], head, tail) == Denote(blocks, head, |blocks[|blocks| - 1]|) + b[..tail]
  {
    hide Denote;
    var first, last := blocks[0], blocks[|blocks| - 1];
    assert (blocks + [b])[1..] == blocks[1..] + [b] && (blocks + [b])[0] == first;
    DenoteCons(blocks + [b], head, tail);
    if |blocks| == 1 {
      assert blocks[1..] + [b] == [b] && blocks == [first];
      DenoteOne(b, 0, tail);
      DenoteOne(first, head, |first|);
    } else {
      DenoteSnoc(blocks[1..], b, 0, tail);
      DenoteCons(blocks, head, |last|);
    }
  }

  /** Only the part of the last block in front of the cursor matters. */
  lemma {:induction false} DenoteLast(blocks: seq<seq<byte>>, b: seq<byte>, head: int, tail: int, more: int)
    requires InBounds(blocks, head, tail) && tail <= more <= |b|
    requires b[..tail] == blocks[|blocks| - 1][..tail]
    ensures var bs := blocks[|blocks| - 1 := b];
            && InBounds(bs, head, tail) && InBounds(bs, head, more)
            && Denote(bs, head, tail) == Denote(blocks, head, tail)
            && Denote(bs, head, more) == Denote(blocks, head, tail) + b[tail..more]
  {
    var bs := blocks[|blocks| - 1 := b];
    if |blocks| == 1 {
      assert b[head..tail] == b[..tail][head..];
      assert b[head..more] == b[head..tail] + b[tail..more];
    } else {
      assert bs[1..] == blocks[1..][|blocks| - 2 := b];
      DenoteLast(blocks[1..], b, 0, tail, more);
    }
  }

  /** Moving the cursor in the first block drops bytes at the front. */
  lemma DenoteDrop(blocks: seq<seq<byte>>, head: int, tail: int, n: nat)
    requires InBounds(blocks, head, tail) && InBounds(blocks, head + n, tail)
    ensures n <= |Denote(blocks, head, tail)|
    ensures Denote(blocks, head + n, tail) == Denote(blocks, head, tail)[n..]
  {
  }

  /** Moving the cursor in the last block drops bytes at the end. */
  lemma {:induction false} DenoteTake(blocks: seq<seq<byte>>, head: int, tail: int, n: nat)
    requires InBounds(blocks, head, tail) && InBounds(blocks, head, tail - n)
    ensures n <= |Denote(blocks, head, tail)|
    ensures Denote(blocks, head, tail - n) == Denote(blocks, head, tail)[..|Denote(blocks, head, tail)| - n]
  {
    if |blocks| > 1 {
      DenoteTake(blocks[1..], 0, tail, n);
    }
  }

  /** Dropping n bytes, when the first block has no more than that. */
  lemma DropFirstBlock(blocks: seq<seq<byte>>, head: int, tail: int, n: nat)
    requires InBounds(blocks, head, tail) && |blocks| > 1 && |blocks[0]| - head <= n
    ensures InBounds(blocks[1..], 0, tail)
    ensures var d, e := Denote(blocks, head, tail), Denote(blocks[1..], 0, tail);
            d[Min(n, |d|)..] == e[Min(n - (|blocks[0]| - head), |e|)..]
  {
  }

  /** Chopping n bytes, when the last block has fewer than that. */
  lemma ChopLastBlock(blocks: seq<seq<byte>>, head: int, tail: int, n: nat)
    requires InBounds(blocks, head, tail) && |blocks| > 1 && tail < n
    requires |blocks| == 2 ==> head <= |blocks[0]|
    ensures var bs := blocks[..|blocks| - 1];
            var t := |bs[|bs| - 1]|;
            && InBounds(bs, head, t)
            && var d, e := Denote(blocks, head, tail), Denote(bs, head, t);
               d[..Max(0, |d| - n)] == e[..Max(0, |e| - (n - tail))]
  {
    var bs, b := blocks[..|blocks| - 1], blocks[|blocks| - 1];
    assert blocks == bs + [b];
    assert bs[0] == blocks[0];
    DenoteSnoc(bs, b, head, tail);
  }

  /** Chopping n bytes, when there is one block: cursors that meet go to its start. */
  lemma ChopFirst(blocks: seq<seq<byte>>, head: int, tail: int, n: nat)
    requires InBounds(blocks, head, tail) && |blocks| == 1
    ensures var d := Denote(blocks, head, tail);
            d[..Max(0, |d| - n)] == if tail - n <= head then [] else Denote(blocks, head, tail - n)
    ensures Denote(blocks, 0, 0) == []
  {
    OneBlock(blocks, head, tail);
    OneBlock(blocks, 0, 0);
    if tail - n > head {
      OneBlock(blocks, head, tail - n);
    }
    hide Denote;
  }

  /** Shrinking the last block to its cursor and adding a block behind it. */
  lemma NewBlock(blocks: seq<seq<byte>>, b: seq<byte>, more: seq<byte>, head: int, tail: int, n: nat)
    requires InBounds(blocks, head, tail) && b == blocks[|blocks| - 1][..tail] && n <= |more|
    ensures var bs := blocks[|blocks| - 1 := b] + [more];
            InBounds(bs, head, n) && Denote(bs, head, n) == Denote(blocks, head, tail) + more[..n]
  {
    hide Denote;
    DenoteLast(blocks, b, head, tail, tail);
    var bs := blocks[|blocks| - 1 := b];
    assert bs[|bs| - 1] == b && |b| == tail;
    DenoteSnoc(bs, more, head, n);
  }

  lemma OneBlock(blocks: seq<seq<byte>>, head: int, tail: int)
    requires InBounds(blocks, head, tail) && |blocks| == 1
    ensures Denote(blocks, head, tail) == blocks[0][head..tail]
  {
  }

  lemma Extended(all: seq<byte>, more: seq<byte>)
    ensures |all + more| == |all| + |more| && (all + more)[..|all|] == all
  {
  }

  /** Without bytes there is one block, with both cursors at its start. */
  lemma NoBytesLeft(blocks: seq<seq<byte>>, head: int, tail: int)
    requires InBounds(blocks, head, tail) && |Denote(blocks, head, tail)| == 0
    requires |blocks| > 1 ==> head < |blocks[0]|
    requires |blocks| == 1 && head == tail ==> head == 0
    ensures |blocks| == 1 && head == tail == 0
  {
  }

  /** A byte in front of the cursor in the first block comes in front of all the others. */
  lemma DenoteFront(blocks: seq<seq<byte>>, first: seq<byte>, head: int, tail: int)
    requires InBounds(blocks, head, tail) && 0 < head && |first| == |blocks[0]|
    requires first[head..] == blocks[0][head..]
    ensures InBounds(blocks[0 := first], head - 1, tail)
    ensures Denote(blocks[0 := first], head - 1, tail) == [first[head - 1]] + Denote(blocks, head, tail)
  {
    var bs := blocks[0 := first];
    if |blocks| == 1 {
      hide Denote;
      OneBlock(bs, head - 1, tail);
      OneBlock(blocks, head, tail);
      WithFront(first, blocks[0], head, tail);
    } else {
      assert bs[1..] == blocks[1..];
      hide Denote;
      DenoteCons(bs, head - 1, tail);
      DenoteCons(blocks, head, tail);
      WithFront(first, blocks[0], head, |first|);
    }
  }

  lemma WithFront(first: seq<byte>, block: seq<byte>, i: nat, j: nat)
    requires 0 < i <= j <= |first| == |block| && first[i..] == block[i..]
    ensures first[i - 1..j] == [first[i - 1]] + block[i..j]
    ensures first[i - 1..] == [first[i - 1]] + block[i..]
  {
    assert first[i..j] == first[i..][..j - i] == block[i..][..j - i] == block[i..j];
  }

  /** A used-up block in front changes nothing. */
  lemma BlockInFront(blocks: seq<seq<byte>>, b: seq<byte>, tail: int)
    requires InBounds(blocks, 0, tail)
    ensures InBounds([b] + blocks, |b|, tail) && Denote([b] + blocks, |b|, tail) == Denote(blocks, 0, tail)
  {
    assert ([b] + blocks)[1..] == blocks;
  }

  /** The first block is used up only if it is the only one, and then the cursors are at its start. */
  predicate Sound(blocks: seq<seq<byte>>, head: int, tail: int, last: int, size: int) {
    && InBounds(blocks, head, tail)
    && last == |blocks| - 1
    && size == |Denote(blocks, head, tail)|
    && (last > 0 ==> head < |blocks[0]|)
    && (last == 0 && head == tail ==> head == 0)
  }

  lemma SoundBounds(blocks: seq<seq<byte>>, head: int, tail: int, last: int, size: int)
    requires Sound(blocks, head, tail, last, size)
    ensures InBounds(blocks, head, tail) && last == |blocks| - 1 && size == |Denote(blocks, head, tail)|
    ensures size == 0 ==> last == head == tail == 0
  {
    if size == 0 {
      NoBytesLeft(blocks, head, tail);
    }
  }

  /** Room for n bytes in the first block, if there are none yet. */
  lemma RoomInFirst(blocks: seq<seq<byte>>, head: int, tail: int, last: int, b: seq<byte>, n: nat)
    requires Sound(blocks, head, tail, last, 0) && n <= |b|
    ensures Sound(blocks[0 := b], 0, n, 0, n)
  {
    SoundBounds(blocks, head, tail, last, 0);
    OneBlock(blocks[0 := b], 0, n);
    hide Denote;
  }

  /** Room for n bytes behind the cursor of the last block. */
  lemma RoomInLast(blocks: seq<seq<byte>>, head: int, tail: int, last: int, size: int, b: seq<byte>, n: nat)
    requires Sound(blocks, head, tail, last, size) && size > 0
    requires tail + n <= |b| && b[..tail] == blocks[last][..tail]
    ensures var bs := blocks[last := b];
            && Sound(bs, head, tail + n, last, size + n)
            && Denote(bs, head, tail + n)[..size] == Denote(blocks, head, tail)
  {
    if |blocks| == 1 {
      OneBlock(blocks, head, tail);
    }
    hide Denote;
    DenoteLast(blocks, b, head, tail, tail + n);
    Extended(Denote(blocks, head, tail), b[tail..tail + n]);
  }

  /** Room for n bytes in a new block, behind a last one that ends at its cursor. */
  lemma RoomInNew(blocks: seq<seq<byte>>, head: int, tail: int, last: int, size: int, b: seq<byte>, more: seq<byte>, n: nat)
    requires Sound(blocks, head, tail, last, size) && size > 0
    requires b == blocks[last][..tail] && n <= |more|
    ensures var bs := blocks[last := b] + [more];
            && Sound(bs, head, n, last + 1, size + n)
            && Denote(bs, head, n)[..size] == Denote(blocks, head, tail)
  {
    if |blocks| == 1 {
      OneBlock(blocks, head, tail);
    }
    hide Denote;
    NewBlock(blocks, b, more, head, tail, n);
    Extended(Denote(blocks, head, tail), more[..n]);
  }

  /** QByteArray::resize: the bytes it adds are not specified. */
  method Resize(b: seq<byte>, n: nat) returns (r: seq<byte>)
    ensures |r| == n && r[..Min(n, |b|)] == b[..Min(n, |b|)]
  {
    r := if n <= |b| then b[..n] else b + seq(n - |b|, _ => 0);
  }

  /** What the blocks from the i-th one on stand for. */
  function Rest(blocks: seq<seq<byte>>, head: int, tail: int, i: nat): seq<byte>
    requires InBounds(blocks, head, tail) && i <= |blocks|
  {
    if i == |blocks| then [] else Denote(blocks[i..], if i == 0 then head else 0, tail)
  }

  lemma RestFirst(blocks: seq<seq<byte>>, head: int, tail: int)
    requires InBounds(blocks, head, tail)
    ensures Rest(blocks, head, tail, 0) == Denote(blocks, head, tail)
  {
    assert blocks[0..] == blocks;
  }

  lemma RestStep(blocks: seq<seq<byte>>, head: int, tail: int, i: nat)
    requires InBounds(blocks, head, tail) && i < |blocks|
    ensures var start, end := if i == 0 then head else 0, if i == |blocks| - 1 then tail else |blocks[i]|;
            && start <= end
            && Rest(blocks, head, tail, i) == blocks[i][start..end] + Rest(blocks, head, tail, i + 1)
  {
    hide Denote;
    var bs := blocks[i..];
    if i == |blocks| - 1 {
      OneBlock(bs, if i == 0 then head else 0, tail);
    } else {
      assert bs[1..] == blocks[i + 1..];
      DenoteCons(bs, if i == 0 then head else 0, tail);
    }
  }

  lemma RestEnd(blocks: seq<seq<byte>>, head: int, tail: int)
    requires InBounds(blocks, head, tail)
    ensures Rest(blocks, head, tail, |blocks|) == []
  {
  }

  /** The inner loop of indexOf: the first position of c in b between start and end, or end. */
  method FindIn(b: seq<byte>, start: int, end: int, c: byte) returns (j: int)
    requires 0 <= start <= end <= |b|
    ensures start <= j <= end && c !in b[start..j] && (j < end ==> b[j] == c)
  {
    j := start;
    while j < end
      invariant start <= j <= end && c !in b[start..j]
    {
      if b[j] == c {
        return;
      }
      assert b[start..j + 1] == b[start..j] + [b[j]];
      j := j + 1;
    }
  }

  /** The part of a block in front of end is what the sequence has at index. */
  lemma BlockPart(all: seq<byte>, block: seq<byte>, rest: seq<byte>, index: nat, b: seq<byte>, start: int, stop: int, end: int)
    requires 0 <= start <= end <= stop <= |b| && block == b[start..stop]
    requires index <= |all| && all[index..] == block + rest
    ensures index + (end - start) <= |all| && all[index..index + (end - start)] == b[start..end]
    ensures all[index + (stop - start)..] == rest
  {
    assert b[start..end] == block[..end - start];
    assert all[index..index + (end - start)] == all[index..][..end - start];
    assert all[index + (stop - start)..] == all[index..][stop - start..];
  }

  lemma Longer(all: seq<byte>, i: nat, j: nat)
    requires i <= j <= |all|
    ensures all[..i] + all[i..j] == all[..j]
  {
  }

  /** Looking through the bytes of a block from start to j moves the search as many bytes on. */
  lemma Scanned(all: seq<byte>, b: seq<byte>, start: int, end: int, j: int, base: nat, c: byte)
    requires 0 <= start <= j <= end <= |b| && base + (end - start) <= |all|
    requires all[base..base + (end - start)] == b[start..end]
    requires c !in b[start..j] && c !in all[..base]
    ensures c !in all[..base + (j - start)]
    ensures j < end ==> all[base + (j - start)] == b[j]
  {
    var part := all[base..base + (end - start)];
    assert part[..j - start] == b[start..j];
    assert all[..base + (j - start)] == all[..base] + part[..j - start];
    if j < end {
      assert all[base + (j - start)] == part[j - start] == b[start..end][j - start];
    }
  }

  /** Copying k more bytes to position n. */
  lemma ReadStep(all: seq<byte>, was: seq<byte>, now: seq<byte>, after: seq<byte>, n: nat, k: nat)
    requires n + k <= |all| && n + k <= |was| && now == all[..n] + was[n..]
    requires after == now[..n] + all[n..][..k] + now[n + k..]
    ensures after == all[..n + k] + was[n + k..]
  {
    assert now[..n] == all[..n] && now[n + k..] == was[n + k..];
    assert all[..n] + all[n..][..k] == all[..n + k];
  }

  class QRingBuffer {
    var buffers: seq<seq<byte>>
    var head: int
    var tail: int
    var tailBuffer: int
    const basicBlockSize: nat
    var bufferSize: int

    ghost predicate Valid()
      reads this
    {
      Sound(buffers, head, tail, tailBuffer, bufferSize) && basicBlockSize > 0
    }

    ghost function Contents(): seq<byte>
      reads this
      requires Valid()
    {
      Denote(buffers, head, tail)
    }

    constructor (growth: nat)
      requires growth > 0
      ensures Valid() && Contents() == []
    {
      basicBlockSize := growth;
      buffers := [[]];
      head, tail, tailBuffer, bufferSize := 0, 0, 0, 0;
    }

    method Clear()
      requires |buffers| > 0 && basicBlockSize > 0
      modifies this
      ensures Valid() && Contents() == []
    {
      buffers := [[]];
      head, tail, tailBuffer, bufferSize := 0, 0, 0, 0;
    }

    function IsEmpty(): bool
      reads this
      requires Valid()
      ensures IsEmpty() <==> Contents() == []
    {
      if tailBuffer > 0 then
        assert Denote(buffers, head, tail)[0] == buffers[0][head];
        false
      else tail == 0
    }

    function Size(): int
      reads this
      requires Valid()
      ensures Size() == |Contents()|
    {
      bufferSize
    }

    function NextDataBlockSize(): int
      reads this
      requires Valid()
      ensures 0 <= NextDataBlockSize() <= |Contents()|
      ensures Contents() != [] ==> NextDataBlockSize() > 0
      ensures Contents()[..NextDataBlockSize()] == ReadBlock()
    {
      (if tailBuffer == 0 then tail else |buffers[0]|) - head
    }

    /** What readPointer points to: the rest of the first block. */
    ghost function ReadBlock(): seq<byte>
      reads this
      requires Valid()
    {
      buffers[0][head..if tailBuffer == 0 then tail else |buffers[0]|]
    }

    method Free(bytes: nat)
      requires Valid()
      modifies this
      ensures Valid()
      ensures Contents() == old(Contents())[Min(bytes, |old(Contents())|)..]
    {
      hide Denote;
      ghost var all := Contents();
      ghost var rest := all[Min(bytes, |all|)..];
      bufferSize := bufferSize - bytes;
      if bufferSize < 0 {
        bufferSize := 0;
      }
      var n := bytes;
      while true
        invariant InBounds(buffers, head, tail) && tailBuffer == |buffers| - 1 && n >= 0 && bufferSize == |rest|
        invariant var d := Denote(buffers, head, tail); d[Min(n, |d|)..] == rest
        decreases |buffers|
      {
        var nextBlockSize := (if tailBuffer == 0 then tail else |buffers[0]|) - head;
        if n < nextBlockSize {
          DenoteDrop(buffers, head, tail, n);
          // the source also resets cursors that have met, but n is less than what lies between them
          head := head + n;
          break;
        }
        if |buffers| == 1 {
          OneBlock(buffers, head, tail);
        } else {
          DropFirstBlock(buffers, head, tail, n);
        }
        n := n - nextBlockSize;
        if |buffers| == 1 {
          if |buffers[0]| != basicBlockSize {
            var b := Resize(buffers[0], basicBlockSize);
            buffers := buffers[0 := b];
          }
          head, tail, tailBuffer := 0, 0, 0;
          OneBlock(buffers, head, tail);
          break;
        }
        buffers, tailBuffer, head := buffers[1..], tailBuffer - 1, 0;
      }
      if tailBuffer == 0 && tail == 0 {
        OneBlock(buffers, head, tail);
        Clear();
      }
    }

    /** The buffer is empty. */
    method ReserveFirst(bytes: nat)
      requires Valid() && bufferSize == 0
      modifies this
      ensures Valid() && tailBuffer == 0 && tail == bytes && |Contents()| == bytes
    {
      hide Denote, Sound;
      SoundBounds(buffers, head, tail, tailBuffer, bufferSize);
      var b := Resize(buffers[0], Max(basicBlockSize, bytes));
      RoomInFirst(buffers, head, tail, tailBuffer, b, bytes);
      SoundBounds(buffers[0 := b], 0, bytes, 0, bytes);
      buffers, bufferSize, tail := buffers[0 := b], bufferSize + bytes, bytes;
    }

    /** The last block is resized. */
    method ReserveInLast(bytes: nat)
      requires Valid() && bufferSize > 0
      modifies this
      ensures Valid() && tailBuffer == old(tailBuffer) && tail == old(tail) + bytes
      ensures |Contents()| == |old(Contents())| + bytes && Contents()[..|old(Contents())|] == old(Contents())
    {
      hide Denote, Sound;
      SoundBounds(buffers, head, tail, tailBuffer, bufferSize);
      var b := Resize(buffers[tailBuffer], tail + bytes);
      RoomInLast(buffers, head, tail, tailBuffer, bufferSize, b, bytes);
      SoundBounds(buffers[tailBuffer := b], head, tail + bytes, tailBuffer, bufferSize + bytes);
      buffers, tail, bufferSize := buffers[tailBuffer := b], tail + bytes, bufferSize + bytes;
    }

    /** The last block is shrunk to its cursor, and a new one comes behind it. */
    method ReserveBlock(bytes: nat)
      requires Valid() && bufferSize > 0
      modifies this
      ensures Valid() && tailBuffer == old(tailBuffer) + 1 && tail == bytes
      ensures |Contents()| == |old(Contents())| + bytes && Contents()[..|old(Contents())|] == old(Contents())
    {
      hide Denote, Sound;
      SoundBounds(buffers, head, tail, tailBuffer, bufferSize);
      var b := Resize(buffers[tailBuffer], tail);
      var more := Resize([], Max(basicBlockSize, bytes));
      RoomInNew(buffers, head, tail, tailBuffer, bufferSize, b, more, bytes);
      var bs := buffers[tailBuffer := b] + [more];
      SoundBounds(bs, head, bytes, tailBuffer + 1, bufferSize + bytes);
      buffers, tailBuffer, tail, bufferSize := bs, tailBuffer + 1, bytes, bufferSize + bytes;
    }

    /** Makes room for bytes at the end; the result is where they go, as block and offset. */
    method Reserve(bytes: nat) returns (block: nat, offset: nat)
      requires Valid()
      modifies this
      ensures Valid() && block == tailBuffer && offset == tail - bytes
      ensures |Contents()| == |old(Contents())| + bytes
      ensures Contents()[..|old(Contents())|] == old(Contents())
    {
      hide Denote, Sound;
      SoundBounds(buffers, head, tail, tailBuffer, bufferSize);
      if bufferSize == 0 {
        assert Contents() == [];
        ReserveFirst(bytes);
        return tailBuffer, 0;
      }
      var last := buffers[tailBuffer];
      if tail + bytes <= |last| {
        RoomInLast(buffers, head, tail, tailBuffer, bufferSize, last, bytes);
        assert buffers[tailBuffer := last] == buffers;
        SoundBounds(buffers, head, tail + bytes, tailBuffer, bufferSize + bytes);
        block, offset := tailBuffer, tail;
        tail, bufferSize := tail + bytes, bufferSize + bytes;
      } else if tail < |last| / 2 {
        block, offset := tailBuffer, tail;
        ReserveInLast(bytes);
      } else {
        ReserveBlock(bytes);
        block, offset := tailBuffer, 0;
      }
    }

    /** memcpy to the place that Reserve returned. */
    method Fill(block: nat, offset: nat, data: seq<byte>)
      requires Valid() && block == tailBuffer && offset + |data| == tail && |data| <= |Contents()|
      requires tailBuffer == 0 ==> head <= offset
      modifies this
      ensures Valid()
      ensures Contents() == old(Contents())[..|old(Contents())| - |data|] + data
    {
      hide Denote;
      var last := buffers[block];
      DenoteTake(buffers, head, tail, |data|);
      var b := last[..offset] + data + last[tail..];
      assert b[offset..tail] == data && b[..offset] == last[..offset];
      DenoteLast(buffers, b, head, offset, tail);
      buffers := buffers[block := b];
    }

    /** reserve followed by memcpy, as the HTTP client appends what it has read. */
    method Append(data: seq<byte>)
      requires Valid()
      modifies this
      ensures Valid() && Contents() == old(Contents()) + data
    {
      var block, offset := Reserve(|data|);
      assert tailBuffer == 0 ==> |Contents()| == tail - head;
      Fill(block, offset, data);
    }

    method PutChar(c: byte)
      requires Valid()
      modifies this
      ensures Valid() && Contents() == old(Contents()) + [c]
    {
      Append([c]);
    }

    method Chop(bytes: nat)
      requires Valid()
      modifies this
      ensures Valid()
      ensures Contents() == old(Contents())[..Max(0, |old(Contents())| - bytes)]
    {
      hide Denote;
      ghost var all := Contents();
      ghost var rest := all[..Max(0, |all| - bytes)];
      bufferSize := bufferSize - bytes;
      if bufferSize < 0 {
        bufferSize := 0;
      }
      var n := bytes;
      while true
        invariant InBounds(buffers, head, tail) && tailBuffer == |buffers| - 1 && n >= 0 && bufferSize == |rest|
        invariant tailBuffer > 0 ==> head < |buffers[0]|
        invariant var d := Denote(buffers, head, tail); d[..Max(0, |d| - n)] == rest
        decreases |buffers|
      {
        if tailBuffer == 0 {
          ChopFirst(buffers, head, tail, n);
          tail := tail - n;
          if tail <= head {
            tail, head := 0, 0;
          }
          return;
        }
        if n <= tail {
          DenoteTake(buffers, head, tail, n);
          tail := tail - n;
          return;
        }
        ChopLastBlock(buffers, head, tail, n);
        n := n - tail;
        buffers, tailBuffer := buffers[..tailBuffer], tailBuffer - 1;
        tail := |buffers[tailBuffer]|;
      }
    }

    method Truncate(pos: int)
      requires Valid()
      modifies this
      ensures Valid()
      ensures Contents() == old(Contents())[..Min(Max(pos, 0), |old(Contents())|)]
    {
      hide Denote, Valid, Contents;
      ghost var c := Contents();
      assert c[..|c|] == c;
      if pos < Size() {
        Chop(Size() - pos);
      }
    }

    method GetChar() returns (c: int)
      requires Valid()
      modifies this
      ensures Valid()
      ensures if old(Contents()) == [] then c == -1 && Contents() == []
              else c == old(Contents())[0] && Contents() == old(Contents())[1..]
    {
      if IsEmpty() {
        return -1;
      }
      assert Contents()[..NextDataBlockSize()][0] == Contents()[0];
      c := buffers[0][head];
      Free(1);
    }

    method UngetChar(c: byte)
      requires Valid()
      modifies this
      ensures Valid() && Contents() == [c] + old(Contents())
    {
      hide Denote;
      head := head - 1;
      if head < 0 {
        var b := Resize([], basicBlockSize);
        BlockInFront(buffers, b, tail);
        buffers := [b] + buffers;
        head := basicBlockSize - 1;
        tailBuffer := tailBuffer + 1;
      }
      var first: seq<byte> := buffers[0][..head] + [c] + buffers[0][head + 1..];
      DenoteFront(buffers, first, head + 1, tail);
      buffers := buffers[0 := first];
      bufferSize := bufferSize + 1;
    }

    /** memcpy from the read pointer. */
    method CopyBlock(data: array<byte>, at: nat, n: nat)
      requires Valid() && n <= NextDataBlockSize() && at + n <= data.Length
      modifies data
      ensures data[..] == old(data[..at]) + Contents()[..n] + old(data[at + n..])
    {
      hide Denote;
      var from := buffers[0][head..head + n];
      assert from == ReadBlock()[..n] == Contents()[..NextDataBlockSize()][..n] == Contents()[..n];
      hide Valid, Contents, NextDataBlockSize, ReadBlock;
      forall i | 0 <= i < n {
        data[at + i] := from[i];
      }
      assert data[..at] == old(data[..at]) && data[at + n..] == old(data[at + n..]);
      assert data[at..at + n] == from;
      assert data[..] == data[..at] + data[at..at + n] + data[at + n..];
    }

    /** read(char *data, int maxLength); without data the bytes are skipped. */
    method Read(data: array?<byte>, maxLength: int) returns (n: int)
      requires Valid() && (data != null ==> maxLength <= data.Length)
      modifies this, data
      ensures Valid() && n == Max(0, Min(|old(Contents())|, maxLength))
      ensures Contents() == old(Contents())[n..]
      ensures data != null ==> data[..] == old(Contents())[..n] + old(data[n..])
    {
      hide Denote, Valid, Contents, ReadBlock, NextDataBlockSize;
      ghost var all := Contents();
      ghost var was := if data != null then data[..] else [];
      var bytesToRead := Min(Size(), maxLength);
      n := 0;
      while n < bytesToRead
        invariant Valid() && 0 <= n <= Max(0, bytesToRead)
        invariant Contents() == all[n..]
        invariant data != null ==> data[..] == all[..n] + was[n..]
        decreases bytesToRead - n
      {
        var k := Min(bytesToRead - n, NextDataBlockSize());
        if data != null {
          CopyNext(data, n, k, all, was);
        }
        FreeNext(n, k, all);
        n := n + k;
      }
    }

    /** The k bytes that come behind the first n are dropped. */
    method FreeNext(n: nat, k: nat, ghost all: seq<byte>)
      requires Valid() && n + k <= |all| && Contents() == all[n..]
      modifies this
      ensures Valid() && Contents() == all[n + k..]
    {
      hide Denote, Valid, Contents;
      Free(k);
      assert all[n..][k..] == all[n + k..];
    }

    /** One round of read: the next k bytes go to where the n bytes before them end. */
    method CopyNext(data: array<byte>, n: nat, k: nat, ghost all: seq<byte>, ghost was: seq<byte>)
      requires Valid() && k <= NextDataBlockSize() && n + k <= data.Length == |was| && n + k <= |all|
      requires Contents() == all[n..] && data[..] == all[..n] + was[n..]
      modifies data
      ensures data[..] == all[..n + k] + was[n + k..]
    {
      hide Denote, Valid, Contents, NextDataBlockSize;
      ghost var now := data[..];
      CopyBlock(data, n, k);
      ReadStep(all, was, now, data[..], n, k);
    }

    /** read(int maxLength) and, with the size for maxLength, readAll; a negative length reads nothing. */
    method ReadBytes(maxLength: int) returns (bytes: seq<byte>)
      requires Valid()
      modifies this
      ensures Valid()
      ensures bytes == old(Contents())[..Max(0, Min(maxLength, |old(Contents())|))]
      ensures Contents() == old(Contents())[|bytes|..]
    {
      hide Denote;
      var size := Max(0, Min(maxLength, Size()));
      var tmp := new byte[size];
      var n := Read(tmp, Min(maxLength, Size()));
      bytes := tmp[..];
    }

    method Skip(length: int) returns (n: int)
      requires Valid()
      modifies this
      ensures Valid() && n == Max(0, Min(|old(Contents())|, length)) && Contents() == old(Contents())[n..]
    {
      n := Read(null, length);
    }

    lemma ValidBounds()
      requires Valid()
      ensures |buffers| > 0 && tailBuffer == |buffers| - 1 && InBounds(buffers, head, tail)
      ensures 0 <= head <= |buffers[0]| && 0 <= tail <= |buffers[tailBuffer]| && (tailBuffer == 0 ==> head <= tail)
      ensures Contents() == Denote(buffers, head, tail)
    {
    }

    /** One round of the outer loop of indexOf(char c, int maxLength): the i-th block, of which remain bytes count. */
    method SearchBlock(c: byte, i: nat, index: nat, remain: nat) returns (found: bool, next: int, left: int)
      requires Valid() && i < |buffers| && index <= |Contents()|
      requires Contents()[index..] == Rest(buffers, head, tail, i) && c !in Contents()[..index]
      ensures index <= next <= |Contents()| && next + left == index + remain && left >= 0 && c !in Contents()[..next]
      ensures found ==> next < |Contents()| && Contents()[next] == c && left > 0
      ensures !found && left > 0 ==> Contents()[next..] == Rest(buffers, head, tail, i + 1)
    {
      hide Denote, Rest, Valid, Contents, InBounds;
      ValidBounds();
      RestStep(buffers, head, tail, i);
      ghost var all, rest := Contents(), Rest(buffers, head, tail, i + 1);
      var start := if i == 0 then head else 0;
      var stop := if i == tailBuffer then tail else |buffers[i]|;
      var end := Min(stop, start + remain);
      ghost var block := buffers[i][start..stop];
      BlockPart(all, block, rest, index, buffers[i], start, stop, end);
      var j := FindIn(buffers[i], start, end, c);
      Scanned(all, buffers[i], start, end, j, index, c);
      found, next, left := j < end, index + (j - start), remain - (j - start);
    }

    /** indexOf(char c, int maxLength). */
    method IndexOfWithin(c: byte, limit: int) returns (index: int)
      requires Valid()
      ensures -1 <= index < Max(0, Min(limit, |Contents()|))
      ensures index >= 0 ==> Contents()[index] == c && c !in Contents()[..index]
      ensures index == -1 ==> c !in Contents()[..Max(0, Min(limit, |Contents()|))]
    {
      hide Denote, Rest;
      var remain := Min(Size(), limit);
      if remain <= 0 {
        return -1; // in the source no inner loop runs then
      }
      index := 0;
      ghost var total := remain;
      RestFirst(buffers, head, tail);
      for i := 0 to |buffers|
        invariant 0 <= index <= total && remain == total - index && c !in Contents()[..index]
        invariant remain > 0 ==> Contents()[index..] == Rest(buffers, head, tail, i)
      {
        if remain == 0 {
          break;
        }
        var found;
        found, index, remain := SearchBlock(c, i, index, remain);
        if found {
          return;
        }
      }
      index := -1;
      RestEnd(buffers, head, tail);
    }

    /** indexOf(char c). */
    method IndexOf(c: byte) returns (index: int)
      requires Valid()
      ensures -1 <= index < |Contents()|
      ensures index >= 0 ==> Contents()[index] == c && c !in Contents()[..index]
      ensures index == -1 ==> c !in Contents()
    {
      hide Denote, Rest, Valid, Contents, InBounds;
      ValidBounds();
      ghost var all := Contents();
      index := 0;
      RestFirst(buffers, head, tail);
      for i := 0 to |buffers|
        invariant 0 <= index <= |all| && all[index..] == Rest(buffers, head, tail, i)
        invariant c !in all[..index]
      {
        RestStep(buffers, head, tail, i);
        var start := if i == 0 then head else 0;
        var end := if i == tailBuffer then tail else |buffers[i]|;
        ghost var block := buffers[i][start..end];
        BlockPart(all, block, Rest(buffers, head, tail, i + 1), index, buffers[i], start, end, end);
        var j := FindIn(buffers[i], start, end, c);
        Scanned(all, buffers[i], start, end, j, index, c);
        index := index + (j - start);
        if j < end {
          return;
        }
      }
      RestEnd(buffers, head, tail);
      assert all[..index] == all;
      index := -1;
    }

    method Peek(maxLength: int) returns (ret: seq<byte>)
      requires Valid()
      ensures ret == Contents()[..Max(0, Min(|Contents()|, maxLength))]
    {
      hide Denote, Rest, Valid, Contents, InBounds;
      ValidBounds();
      var bytesToRead := Min(Size(), maxLength);
      if maxLength <= 0 {
        return [];
      }
      ghost var all := Contents();
      ret := [];
      var i := 0;
      RestFirst(buffers, head, tail);
      while |ret| < bytesToRead && i < |buffers|
        invariant 0 <= i <= |buffers| && |ret| <= bytesToRead && ret == all[..|ret|]
        invariant |ret| < bytesToRead ==> all[|ret|..] == Rest(buffers, head, tail, i)
      {
        var part := PeekBlock(i, |ret|, bytesToRead - |ret|);
        Longer(all, |ret|, |ret| + |part|);
        ret := ret + part;
        i := i + 1;
      }
      RestEnd(buffers, head, tail);
    }

    /** One round of peek: what counts of the i-th block, behind the bytes of the blocks before. */
    method PeekBlock(i: nat, done: nat, more: nat) returns (part: seq<byte>)
      requires Valid() && i < |buffers| && done <= |Contents()|
      requires Contents()[done..] == Rest(buffers, head, tail, i)
      ensures |part| <= more && done + |part| <= |Contents()| && part == Contents()[done..done + |part|]
      ensures |part| < more ==> Contents()[done + |part|..] == Rest(buffers, head, tail, i + 1)
    {
      hide Denote, Rest, Valid, Contents, InBounds;
      ValidBounds();
      RestStep(buffers, head, tail, i);
      ghost var rest := Rest(buffers, head, tail, i + 1);
      var start := if i == 0 then head else 0;
      var end := if i == tailBuffer then tail else |buffers[i]|;
      var len := Min(more, end - start);
      BlockPart(Contents(), buffers[i][start..end], rest, done, buffers[i], start, end, start + len);
      part := buffers[i][start..start + len];
    }

    /** What readLine copies: up to and including the first line end, and no more than fits before the terminator. */
    static function LineLength(s: seq<byte>, index: int, maxLength: int): int {
      if index == -1 then Max(0, Min(|s|, maxLength))
      else if maxLength <= 0 then -1
      else Min(index + 1, maxLength - 1)
    }

    /** readLine: with a line end in the buffer, the line is copied and terminated by a zero. */
    method ReadLine(data: array<byte>, maxLength: int) returns (r: int, ghost index: int)
      requires Valid() && maxLength <= data.Length
      modifies this, data
      ensures Valid()
      ensures -1 <= index < |old(Contents())|
      ensures if index == -1 then 10 !in old(Contents())
              else old(Contents())[index] == 10 && 10 !in old(Contents())[..index]
      ensures r == LineLength(old(Contents()), index, maxLength)
      ensures Contents() == old(Contents())[Max(0, r)..]
      ensures data[..] == if r == -1 then old(data[..])
                          else if index == -1 then old(Contents())[..r] + old(data[r..])
                          else old(Contents())[..r] + [0] + old(data[r + 1..])
    {
      hide Denote, Valid, Contents;
      var i := IndexOf(10);
      index := i;
      if i == -1 {
        r := Read(data, maxLength);
        return;
      }
      if maxLength <= 0 {
        return -1, i;
      }
      r := CopyLine(data, i, maxLength);
      Terminate(data, old(Contents())[..r], old(data[..]), r);
    }

    /** The loop of readLine. */
    method CopyLine(data: array<byte>, index: nat, maxLength: nat) returns (r: nat)
      requires Valid() && index < |Contents()| && 0 < maxLength <= data.Length
      modifies this, data
      ensures Valid() && r == Min(index + 1, maxLength - 1)
      ensures Contents() == old(Contents())[r..]
      ensures data[..] == old(Contents())[..r] + old(data[r..])
    {
      hide Denote, Valid, Contents;
      ghost var all, was := Contents(), data[..];
      ghost var bound := Min(index + 1, maxLength - 1);
      r := 0;
      while r < index + 1 && r < maxLength - 1
        invariant Valid() && 0 <= r <= bound
        invariant Contents() == all[r..]
        invariant data[..] == all[..r] + was[r..]
        decreases bound - r
      {
        var k := Min(index + 1 - r, NextDataBlockSize());
        k := Min(k, maxLength - 1 - r);
        ghost var now := data[..];
        CopyBlock(data, r, k);
        ReadStep(all, was, now, data[..], r, k);
        r := r + k;
        Free(k);
      }
    }

    /** Writes the terminating zero. */
    method Terminate(data: array<byte>, ghost line: seq<byte>, ghost was: seq<byte>, r: nat)
      requires r < data.Length == |was| && |line| == r && data[..] == line + was[r..]
      modifies data
      ensures data[..] == line + [0] + was[r + 1..]
    {
      assert data[..][..r] == line && data[..][r + 1..] == was[r + 1..];
      data[r] := 0;
      assert data[..] == data[..r] + [0] + data[r + 1..];
    }

    method CanReadLine() returns (b: bool)
      requires Valid()
      ensures b <==> 10 in Contents()
    {
      var i := IndexOf(10);
      b := i != -1;
    }
  }
}
