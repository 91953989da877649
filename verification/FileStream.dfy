/** Reading a file: the ext2 server pushes one block at a time into the connection's ring buffer,
    the client pulls bytes from it, and fread, fgetc and fgets sit on top. */
module FileStream {
  import opened Common
  import opened Bytes
  import opened RingBuffers

  datatype Reply = Completed(sent: nat) | Error(code: nat)

  const FS_ERROR_QUEUE_FULL := 6
  const FS_ERROR_BAD_REQUEST := 7

  /** A fully mapped file: its blocks, of one size each, and its length in bytes. */
  datatype FileData = FileData(blocks: seq<seq<Byte>>, blockSize: nat, size: nat) {
    ghost predicate Mapped() {
      && blockSize > 0 && size <= |blocks| * blockSize
      && forall b | 0 <= b < |blocks| :: |blocks[b]| == blockSize
    }

    // Which block a position is in, and where in it
    function BlockAt(i: nat): nat
      requires blockSize > 0
    {
      i / blockSize
    }

    function OffsetAt(i: nat): nat
      requires blockSize > 0
    {
      i % blockSize
    }

    function ByteAt(i: nat): Byte {
      if blockSize == 0 then 0
      else
        var b, k := i / blockSize, i % blockSize;
        if b < |blocks| && k < |blocks[b]| then blocks[b][k] else 0
    }

    ghost function Bytes(): (s: seq<Byte>)
      ensures |s| == size
    {
      seq(size, i requires 0 <= i < size => ByteAt(i))
    }
  }

  lemma MappedBlocks(f: FileData)
    requires f.Mapped()
    ensures f.blockSize > 0
  {
  }

  // Position n * blockSize + k lies in block n.
  lemma InBlock(f: FileData, n: nat, k: nat)
    requires f.Mapped() && k < f.blockSize && n * f.blockSize + k < f.size
    ensures n < |f.blocks| && f.ByteAt(n * f.blockSize + k) == f.blocks[n][k]
  {
    Unique(n * f.blockSize + k, f.blockSize, n, k);
    MulMono(|f.blocks|, n, f.blockSize);
  }

  // What one block contributes to the file.
  lemma {:induction false} BlockBytes(f: FileData, n: nat, len: nat)
    requires f.Mapped() && n * f.blockSize < f.size && len == Min(f.size - n * f.blockSize, f.blockSize)
    ensures n < |f.blocks| && |f.blocks[n]| == f.blockSize
    ensures f.Bytes()[n * f.blockSize..n * f.blockSize + len] == f.blocks[n][..len]
  {
    InBlock(f, n, 0);
    hide FileData.ByteAt;
    forall k | 0 <= k < len
      ensures f.ByteAt(n * f.blockSize + k) == f.blocks[n][k]
    {
      InBlock(f, n, k);
    }
    BytesFrom(f, n * f.blockSize, f.blocks[n][..len]);
  }

  lemma BytesFrom(f: FileData, at: nat, s: seq<Byte>)
    requires at + |s| <= f.size && forall k | 0 <= k < |s| :: f.ByteAt(at + k) == s[k]
    ensures f.Bytes()[at..at + |s|] == s
  {
    hide FileData.ByteAt;
    assert forall k | 0 <= k < |s| :: f.Bytes()[at..at + |s|][k] == s[k];
  }

  // From one block boundary to the next, or to the end.
  lemma NextBoundary(f: FileData, at: nat, len: nat)
    requires f.blockSize > 0 && at % f.blockSize == 0 && at < f.size && len == Min(f.size - at, f.blockSize)
    ensures (at + len) % f.blockSize == 0 || at + len == f.size
    ensures at == at / f.blockSize * f.blockSize
  {
    if len == f.blockSize {
      assert at == at / f.blockSize * f.blockSize + at % f.blockSize;
      assert (at / f.blockSize + 1) * f.blockSize == at / f.blockSize * f.blockSize + f.blockSize;
      Unique(at + len, f.blockSize, at / f.blockSize + 1, 0);
    }
  }

  // A position the server can be at: a block boundary or the end
  ghost predicate AtBoundary(f: FileData, at: nat) {
    f.blockSize > 0 && (at % f.blockSize == 0 || at == f.size)
  }

  // What the server sends from a block boundary on.
  lemma SentBytes(f: FileData, at: nat, len: nat, n: nat)
    requires f.Mapped() && AtBoundary(f, at) && at < f.size && len == Min(f.size - at, f.blockSize) && n == f.BlockAt(at)
    ensures n < |f.blocks| && |f.blocks[n]| == f.blockSize && 0 < len <= f.blockSize
    ensures f.blocks[n][0..len] == f.Bytes()[at..at + len]
    ensures f.OffsetAt(at) == 0 && AtBoundary(f, at + len)
    ensures len <= Min(f.blockSize, f.size) && (at == 0 ==> len == Min(f.blockSize, f.size))
  {
    NextBoundary(f, at, len);
    BlockBytes(f, at / f.blockSize, len);
  }

  /** Both ends of one client's connection. index is the client's count of bytes read; the server
      has its own position in the file. */
  class Connection {
    const ring: RingBuffer
    var node: Option<FileData>
    var serverIndex: nat
    var index: nat

    // A connection just made: an empty ring of a given size and no file yet.
    constructor (ringSize: nat)
      requires HEADER_SIZE + 1 < ringSize < WORD
      ensures ring.Valid() && ring.Contents() == [] && ring.data.Length == ringSize - HEADER_SIZE
      ensures fresh(ring) && fresh(ring.data) && node == None && index == 0
    {
      ring := new RingBuffer(ringSize);
      node, serverIndex, index := None, 0, 0;
    }

    // Every block the server sends fits into an empty ring.
    ghost predicate Fits(f: FileData)
    {
      Min(f.blockSize, f.size) < ring.data.Length
    }

    // The ring holds the bytes between the two positions.
    ghost predicate Delivers(f: FileData)
      reads this, ring, ring.data
    {
      && ring.Valid() && node == Some(f) && f.Mapped()
      && index <= serverIndex <= f.size
      && ring.Contents() == f.Bytes()[index..serverIndex]
      && (!Fits(f) ==> serverIndex == 0)
    }

    ghost predicate Streams(f: FileData)
      reads this, ring, ring.data
    {
      Delivers(f) && AtBoundary(f, serverIndex)
    }

    lemma IndexInFile()
      requires node.Some? && Streams(node.value)
      ensures index <= node.value.size
    {
    }

    // handle_set_node
    method HandleSetNode(f: FileData) returns (reply: Reply)
      requires ring.Valid() && f.Mapped()
      modifies this
      ensures reply == Completed(0) && index == old(index)
      ensures ring.Contents() == [] && index == 0 ==> Streams(f)
    {
      node, serverIndex := Some(f), 0;
      reply := Completed(0);
    }

    lemma RoomLeft()
      requires ring.Valid()
      ensures ring.Room() == ring.data.Length - 1 - |ring.Contents()|
      ensures ring.Contents() == [] ==> ring.Exact()
    {
      QueuedLength(ring.data[..], ring.readIndex, ring.writeIndex);
    }

    // The write in handle_read_block: as much as fits continues what is in the ring.
    method SendPart(f: FileData, bytes: seq<Byte>) returns (wrote: nat)
      requires Delivers(f) && Fits(f) && serverIndex + |bytes| <= f.size && bytes == f.Bytes()[serverIndex..serverIndex + |bytes|]
      modifies this`serverIndex, ring`writeIndex, ring.data
      ensures Delivers(f) && wrote == Min(|bytes|, old(ring.Room())) && serverIndex == old(serverIndex) + wrote
    {
      hide Queued, Available, Used, FileData.Bytes, FileData.Mapped, RingBuffer.Contents, RingBuffer.Room, Fits;
      RoomLeft();
      ghost var at := serverIndex;
      wrote := ring.Write(bytes);
      serverIndex := serverIndex + wrote;
      SentPart(f.Bytes(), index, at, |bytes|, wrote);
    }

    // handle_read_block. The position stays at a boundary unless the room in a ring that has
    // wrapped is overestimated; an empty ring, on which alone the client asks, has not.
    method HandleReadBlock() returns (reply: Reply)
      requires ring.Valid() && (node.Some? ==> Streams(node.value))
      modifies this`serverIndex, ring`writeIndex, ring.data
      ensures ring.Valid() && (node.Some? ==> Delivers(node.value))
      ensures node.Some? && old(ring.Exact()) ==> Streams(node.value)
      ensures node.None? ==> reply == Error(FS_ERROR_BAD_REQUEST)
      ensures node.Some? && old(serverIndex) == node.value.size ==> reply == Completed(0) && serverIndex == old(serverIndex)
      ensures reply.Error? ==> serverIndex == old(serverIndex) && ring.Contents() == old(ring.Contents())
      ensures node.Some? && old(ring.Contents()) == [] && old(serverIndex) < node.value.size ==>
                if Fits(node.value) then
                  var sent := Min(node.value.blockSize, node.value.size - old(serverIndex));
                  reply == Completed(sent) && serverIndex == old(serverIndex) + sent && sent > 0
                else reply == Error(FS_ERROR_QUEUE_FULL)
    {
      hide Available, FileData.Bytes, FileData.Mapped, FileData.BlockAt, FileData.OffsetAt;
      hide RingBuffer.Contents, RingBuffer.Room, RingBuffer.Exact, AtBoundary;
      if node.None? {
        return Error(FS_ERROR_BAD_REQUEST);
      }
      var f := node.value;
      if serverIndex >= f.size {
        return Completed(0);
      }
      MappedBlocks(f);
      var diff := f.size - serverIndex;
      var writesize := if diff > f.blockSize then f.blockSize else diff;
      var offset := f.OffsetAt(serverIndex);
      var block := f.BlockAt(serverIndex);
      SentBytes(f, serverIndex, writesize, block);
      RoomLeft();
      var can := ring.CanWrite(writesize);
      if !can {
        return Error(FS_ERROR_QUEUE_FULL);
      }
      var wrote := SendPart(f, f.blocks[block][offset..offset + writesize]);
      reply := Completed(wrote);
    }

    // What the ring holds lies between the two positions.
    lemma RingHolds()
      requires node.Some? && Streams(node.value)
      ensures ring.Valid() && |ring.Contents()| == serverIndex - index && index <= serverIndex <= node.value.size
      ensures !Fits(node.value) ==> serverIndex == 0
    {
    }

    // fs_read_block: bytes from the ring, which is filled first when it is empty.
    method ReadBlock(buffer: array<Byte>, at: nat, maxlen: nat) returns (n: int)
      requires node.Some? && Streams(node.value) && at + maxlen <= buffer.Length && buffer != ring.data
      modifies this`serverIndex, this`index, ring, ring.data, buffer
      ensures node == old(node) && Streams(node.value)
      ensures !Fits(node.value) ==> n == if node.value.size > 0 then -FS_ERROR_QUEUE_FULL else 0
      ensures Fits(node.value) ==> 0 <= n && (n > 0 <==> maxlen > 0 && old(index) < node.value.size)
      ensures n <= maxlen && index == old(index) + (if n > 0 then n else 0) && index <= node.value.size
      ensures n > 0 ==> buffer[at..at + n] == node.value.Bytes()[old(index)..index]
      ensures forall k | 0 <= k < at || at + (if n > 0 then n else 0) <= k < buffer.Length :: buffer[k] == old(buffer[k])
    {
      hide Queued, Used, FileData.Bytes, FileData.Mapped, Available, RingBuffer.Contents, RingBuffer.Valid, RingBuffer.Exact;
      hide Fits, AtBoundary, Streams, Delivers;
      RingHolds();
      var empty := ring.Empty();
      if empty {
        RoomLeft();
        var reply := HandleReadBlock();
        if reply.Error? {
          return 0 - reply.code;
        }
        RingHolds();
      }
      n := Pull(buffer, at, maxlen);
    }

    // The rest of fs_read_block: what is in the ring, up to maxlen bytes of it.
    method Pull(buffer: array<Byte>, at: nat, maxlen: nat) returns (n: nat)
      requires node.Some? && Streams(node.value) && at + maxlen <= buffer.Length && buffer != ring.data
      modifies this`index, ring`readIndex, buffer
      ensures Streams(node.value) && index == old(index) + n <= node.value.size
      ensures n == Min(maxlen, serverIndex - old(index))
      ensures buffer[at..at + n] == node.value.Bytes()[old(index)..index]
      ensures forall k | 0 <= k < at || at + n <= k < buffer.Length :: buffer[k] == old(buffer[k])
    {
      hide Queued, Used, FileData.Bytes, FileData.Mapped, Available, RingBuffer.Contents, RingBuffer.Valid, RingBuffer.Exact, Fits, AtBoundary;
      ghost var f := node.value;
      SliceOf(f.Bytes(), index, serverIndex, Min(maxlen, |ring.Contents()|));
      n := ring.Read(buffer, at, maxlen);
      index := index + n;
    }
  }

  // Any part of what is sent next continues what is in the ring.
  lemma SentPart(s: seq<Byte>, i: nat, at: nat, len: nat, k: nat)
    requires i <= at && at + len <= |s| && k <= len
    ensures s[i..at] + s[at..at + len][..k] == s[i..at + k]
  {
  }

  lemma SliceOf(s: seq<Byte>, i: nat, j: nat, n: nat)
    requires i <= j <= |s| && n <= j - i
    ensures s[i..j][..n] == s[i..i + n] && s[i..j][n..] == s[i + n..j]
  {
  }

  datatype Status = Good | Closed | EndOfFile | Failed

  const EOF := -1
  const EBADF := 1
  const NEWLINE: Byte := 10

  // A byte as a char and back; char is signed.
  function Signed(b: Byte): (c: int)
    ensures -0x80 <= c < 0x80 && (c - b) % 0x100 == 0
  {
    if b < 0x80 then b else b - 0x100
  }

  function Unsigned(c: int): Byte {
    c % 0x100
  }

  // Up to and with the first newline, or everything.
  ghost function LineLength(s: seq<Byte>): (n: nat)
    ensures n <= |s|
  {
    if s == [] then 0 else if s[0] == NEWLINE then 1 else 1 + LineLength(s[1..])
  }

  lemma {:induction false} LineEnds(s: seq<Byte>, k: nat)
    requires 0 < k <= |s| && s[k - 1] == NEWLINE && forall j | 0 <= j < k - 1 :: s[j] != NEWLINE
    ensures LineLength(s) == k
  {
    if k > 1 {
      LineEnds(s[1..], k - 1);
    }
  }

  lemma {:induction false} LineGoesOn(s: seq<Byte>, k: nat)
    requires k <= |s| && forall j | 0 <= j < k :: s[j] != NEWLINE
    ensures LineLength(s) >= k && (LineLength(s) == k <==> k == |s|)
  {
    if k > 0 {
      LineGoesOn(s[1..], k - 1);
    }
  }

  // What fgets leaves in its buffer, and where it leaves the stream, when it starts at start.
  ghost predicate GotLine(bytes: seq<Byte>, start: nat, size: nat, got: seq<Byte>, eof: bool, index: nat) {
    start <= |bytes| && size > 0 &&
    var rest, n := bytes[start..], |got|;
    && n == Min(LineLength(rest), size - 1) && got == rest[..n]
    && index == start + n + (if LineLength(rest) >= size then 1 else 0)
    && (eof <==> LineLength(rest) < size && (n == 0 || got[n - 1] != NEWLINE))
  }

  // Within a line: got has been stored, and c was read after it unless the file ended.
  ghost predicate Midline(bytes: seq<Byte>, start: nat, got: seq<Byte>, good: bool, c: int, index: nat) {
    var k := |got|;
    && start + k <= |bytes| && got == bytes[start..start + k]
    && (forall j | 0 <= j < k :: got[j] != NEWLINE)
    && if good then start + k < |bytes| && c == Signed(bytes[start + k]) && index == start + k + 1
       else start + k == |bytes| && index == start + k
  }

  // What one fgetc does at a position: the next byte, the end, or a refusal.
  ghost predicate Fetched(bytes: seq<Byte>, fits: bool, was: Status, at: nat, now: Status, c: int, index: nat) {
    if was != Good then now == was && c == -EBADF && index == at
    else if fits && at < |bytes| then now == Good && c == Signed(bytes[at]) && index == at + 1
    else now == EndOfFile && c == EOF && index == at
  }

  // What fgets has done before its loop ends: it is within a line; or the stream was at its end,
  // or cannot deliver; or it is closed, and every byte is the refusal.
  ghost predicate Filling(bytes: seq<Byte>, fits: bool, was: Status, start: nat, got: seq<Byte>, now: Status, c: int, index: nat) {
    if was == Good && fits then (now == Good || now == EndOfFile) && Midline(bytes, start, got, now == Good, c, index)
    else if was == Good || was == EndOfFile then got == [] && now == EndOfFile && index == start
    else now == was && c == -EBADF && index == start && forall j | 0 <= j < |got| :: got[j] == 0xff
  }

  // What fgets leaves.
  ghost predicate Filled(bytes: seq<Byte>, fits: bool, was: Status, start: nat, size: nat, got: seq<Byte>, now: Status, index: nat) {
    if was == Good && fits then (now == Good || now == EndOfFile) && GotLine(bytes, start, size, got, now == EndOfFile, index)
    else if was == Good || was == EndOfFile then got == [] && now == EndOfFile && index == start
    else now == was && index == start && |got| == size - 1 && forall j | 0 <= j < |got| :: got[j] == 0xff
  }

  lemma FillStart(bytes: seq<Byte>, fits: bool, was: Status, start: nat, now: Status, c: int, index: nat)
    requires start <= |bytes| && Fetched(bytes, fits, was, start, now, c, index)
    ensures Filling(bytes, fits, was, start, [], now, c, index)
  {
  }

  lemma FillNext(bytes: seq<Byte>, fits: bool, was: Status, start: nat, got: seq<Byte>, mid: Status, last: int, at: nat,
                 now: Status, c: int, index: nat)
    requires Filling(bytes, fits, was, start, got, mid, last, at) && mid != EndOfFile && last != NEWLINE
    requires Fetched(bytes, fits, mid, at, now, c, index)
    ensures Filling(bytes, fits, was, start, got + [Unsigned(last)], now, c, index)
  {
  }

  lemma {:induction false} FillNewline(bytes: seq<Byte>, fits: bool, was: Status, start: nat, size: nat, got: seq<Byte>, now: Status,
                                       c: int, index: nat)
    requires Filling(bytes, fits, was, start, got, now, c, index) && now != EndOfFile && c == NEWLINE && |got| + 1 < size
    ensures Filled(bytes, fits, was, start, size, got + [Unsigned(c)], now, index)
  {
    MidNewline(bytes, start, got, c, index, size);
  }

  lemma {:induction false} FillStop(bytes: seq<Byte>, fits: bool, was: Status, start: nat, size: nat, got: seq<Byte>, now: Status, c: int, index: nat)
    requires Filling(bytes, fits, was, start, got, now, c, index) && |got| < size && (now == EndOfFile || |got| + 1 == size)
    ensures Filled(bytes, fits, was, start, size, got, now, index)
  {
    if was == Good && fits {
      MidStop(bytes, start, got, now == Good, c, index, size);
    }
  }

  lemma {:induction false} MidNewline(bytes: seq<Byte>, start: nat, got: seq<Byte>, c: int, index: nat, size: nat)
    requires Midline(bytes, start, got, true, c, index) && c == NEWLINE && |got| + 1 < size
    ensures GotLine(bytes, start, size, got + [Unsigned(c)], false, index)
  {
    var rest := bytes[start..];
    assert forall j | 0 <= j < |got| :: rest[j] == got[j];
    LineEnds(rest, |got| + 1);
    assert rest[..|got| + 1] == got + [NEWLINE];
  }

  lemma {:induction false} MidStop(bytes: seq<Byte>, start: nat, got: seq<Byte>, good: bool, c: int, index: nat, size: nat)
    requires Midline(bytes, start, got, good, c, index) && |got| < size && (!good || |got| + 1 == size)
    ensures GotLine(bytes, start, size, got, !good, index)
  {
    var rest := bytes[start..];
    assert forall j | 0 <= j < |got| :: rest[j] == got[j];
    LineGoesOn(rest, |got|);
  }

  ghost function Sum(lens: seq<nat>): nat {
    if lens == [] then 0 else Sum(lens[..|lens| - 1]) + lens[|lens| - 1]
  }

  lemma SumNext(lens: seq<nat>)
    ensures Sum(lens[..0]) == 0 && forall k | 0 <= k < |lens| :: Sum(lens[..k + 1]) == Sum(lens[..k]) + lens[k]
  {
    forall k | 0 <= k < |lens|
      ensures Sum(lens[..k + 1]) == Sum(lens[..k]) + lens[k]
    {
      assert lens[..k + 1][..k] == lens[..k];
    }
  }

  // size * members in 32 bits
  function Product(size: nat, members: nat): nat {
    size * members % WORD
  }

  lemma ProductWhole(size: nat, members: nat)
    ensures Product(size, members) < WORD && (size * members < WORD ==> Product(size, members) == size * members)
  {
  }

  class File {
    const conn: Connection
    var status: Status

    // What fopen leaves: a fresh connection with the node set.
    constructor (ringSize: nat, f: FileData)
      requires HEADER_SIZE + 1 < ringSize < WORD && f.Mapped()
      ensures fresh(conn) && fresh(conn.ring) && fresh(conn.ring.data)
      ensures status == Good && conn.Streams(f) && conn.index == 0 && conn.ring.data.Length == ringSize - HEADER_SIZE
    {
      var c := new Connection(ringSize);
      conn, status := c, Good;
      new;
      var reply := c.HandleSetNode(f);
    }

    // fread: as many of the file's next bytes as are asked for and there are. It reads nothing
    // when a block does not fit into the ring.
    method Fread(buffer: array<Byte>, size: nat, members: nat) returns (ret: nat)
      requires conn.node.Some? && conn.Streams(conn.node.value)
      requires Product(size, members) <= buffer.Length && buffer != conn.ring.data
      modifies conn`serverIndex, conn`index, conn.ring, conn.ring.data, buffer
      ensures conn.node == old(conn.node) && conn.Streams(conn.node.value)
      ensures var f, len := conn.node.value, Product(size, members);
              ret == if conn.Fits(f) then Min(len, f.size - old(conn.index)) else 0
      ensures size * members < WORD ==> ret == if conn.Fits(conn.node.value) then Min(size * members, conn.node.value.size - old(conn.index)) else 0
      ensures conn.index == old(conn.index) + ret
      ensures buffer[..ret] == conn.node.value.Bytes()[old(conn.index)..conn.index]
      ensures forall k | ret <= k < buffer.Length :: buffer[k] == old(buffer[k])
    {
      hide FileData.Bytes, FileData.Mapped, RingBuffer.Contents, RingBuffer.Valid, Connection.Streams, Connection.Fits, Product;
      conn.IndexInFile();
      ProductWhole(size, members);
      ret := FreadBytes(buffer, Product(size, members));
    }

    // The loop in fread
    method FreadBytes(buffer: array<Byte>, all: nat) returns (ret: nat)
      requires conn.node.Some? && conn.Streams(conn.node.value)
      requires all <= buffer.Length && buffer != conn.ring.data
      modifies conn`serverIndex, conn`index, conn.ring, conn.ring.data, buffer
      ensures conn.node == old(conn.node) && conn.Streams(conn.node.value)
      ensures old(conn.index) <= conn.node.value.size
      ensures ret == if conn.Fits(conn.node.value) then Min(all, conn.node.value.size - old(conn.index)) else 0
      ensures conn.index == old(conn.index) + ret
      ensures buffer[..ret] == conn.node.value.Bytes()[old(conn.index)..conn.index]
      ensures forall k | ret <= k < buffer.Length :: buffer[k] == old(buffer[k])
    {
      hide FileData.Bytes, FileData.Mapped, RingBuffer.Contents, RingBuffer.Valid, Connection.Streams, Connection.Fits;
      conn.IndexInFile();
      ghost var f, start := conn.node.value, conn.index;
      var len := all;
      ret := 0;
      var nread := conn.ReadBlock(buffer, 0, len);
      while nread > 0
        invariant conn.node == Some(f) && conn.Streams(f) && conn.index <= f.size
        invariant conn.Fits(f) ==> 0 <= nread <= len && (nread == 0 ==> len == 0 || conn.index == f.size)
        invariant !conn.Fits(f) ==> nread <= 0 && ret == 0 && conn.index == start
        invariant ret + len == all && (nread > 0 ==> conn.index == start + ret + nread)
        invariant nread <= 0 ==> conn.index == start + ret
        invariant nread > 0 ==> nread <= len
        invariant buffer[..ret + if nread > 0 then nread else 0] == f.Bytes()[start..conn.index]
        invariant forall k | ret + (if nread > 0 then nread else 0) <= k < buffer.Length :: buffer[k] == old(buffer[k])
        decreases len + if nread > 0 then 1 else 0
      {
        ret := ret + nread;
        len := len - nread;
        ghost var was, at := buffer[..ret], conn.index;
        nread := conn.ReadBlock(buffer, ret, len);
        Appended(f.Bytes(), start, at, conn.index);
      }
    }

    // fread into a buffer of its own
    method FreadNew(len: nat) returns (got: seq<Byte>)
      requires conn.node.Some? && conn.Streams(conn.node.value) && len < WORD
      modifies conn`serverIndex, conn`index, conn.ring, conn.ring.data
      ensures conn.node == old(conn.node) && conn.Streams(conn.node.value)
      ensures conn.index == old(conn.index) + if conn.Fits(conn.node.value) then Min(len, conn.node.value.size - old(conn.index)) else 0
      ensures conn.index <= conn.node.value.size && got == conn.node.value.Bytes()[old(conn.index)..conn.index]
    {
      hide FileData.Bytes, FileData.Mapped, RingBuffer.Contents, RingBuffer.Valid, Connection.Streams, Connection.Fits;
      conn.IndexInFile();
      var buffer := new Byte[len];
      assert Product(len, 1) == len;
      var ret := Fread(buffer, len, 1);
      got := buffer[..ret];
    }

    // Any run of freads on a file just opened: together they return the start of the file, or
    // nothing at all when its blocks do not fit into the ring.
    method FreadRun(lens: seq<nat>) returns (got: seq<Byte>)
      requires conn.node.Some? && conn.Streams(conn.node.value) && conn.index == 0
      requires forall k | 0 <= k < |lens| :: lens[k] < WORD
      modifies conn`serverIndex, conn`index, conn.ring, conn.ring.data
      ensures var f := conn.node.value;
              got == if conn.Fits(f) then f.Bytes()[..Min(Sum(lens), f.size)] else []
    {
      ghost var f := conn.node.value;
      ghost var bytes := f.Bytes();
      hide FileData.Bytes, FileData.Mapped, RingBuffer.Contents, RingBuffer.Valid, Connection.Streams, Connection.Fits, Sum;
      SumNext(lens);
      got := [];
      for k := 0 to |lens|
        invariant conn.node == Some(f) && conn.Streams(f) && conn.index <= |bytes|
        invariant got == bytes[..conn.index]
        invariant conn.index == if conn.Fits(f) then Min(Sum(lens[..k]), f.size) else 0
      {
        ghost var at := conn.index;
        var more := FreadNew(lens[k]);
        got := got + more;
        Appended(bytes, 0, at, conn.index);
      }
      assert lens[..|lens|] == lens;
    }

    // fgetc: the next byte as a signed char, or EOF once there is none.
    method Fgetc() returns (c: int)
      requires conn.node.Some? && conn.Streams(conn.node.value)
      modifies this`status, conn`serverIndex, conn`index, conn.ring, conn.ring.data
      ensures conn.node == old(conn.node) && conn.Streams(conn.node.value)
      ensures Fetched(conn.node.value.Bytes(), conn.Fits(conn.node.value), old(status), old(conn.index), status, c, conn.index)
    {
      hide FileData.Bytes, FileData.Mapped, RingBuffer.Contents, RingBuffer.Valid, Connection.Streams;
      conn.IndexInFile();
      if status != Good {
        return -EBADF;
      }
      var buffer := new Byte[1];
      assert Product(1, 1) == 1;
      var nread := Fread(buffer, 1, 1);
      if nread > 0 {
        c := Signed(buffer[..nread][0]);
      } else {
        status := EndOfFile;
        c := EOF;
      }
    }

    // fgets, for a size of at least 1: the bytes up to and with the next newline if they fit with
    // the terminating 0, and otherwise size - 1 of them. In that case the byte after them is
    // read and lost. After the end there is nothing; a closed stream fills the buffer.
    method Fgets(s: array<Byte>, size: nat) returns (ghost n: nat)
      requires conn.node.Some? && conn.Streams(conn.node.value)
      requires 1 <= size <= s.Length && s != conn.ring.data
      modifies this`status, conn`serverIndex, conn`index, conn.ring, conn.ring.data, s
      ensures conn.node == old(conn.node) && conn.Streams(conn.node.value)
      ensures n < s.Length && s[n] == 0
      ensures Filled(conn.node.value.Bytes(), conn.Fits(conn.node.value), old(status), old(conn.index), size, s[..n], status, conn.index)
    {
      hide FileData.Bytes, FileData.Mapped, RingBuffer.Contents, RingBuffer.Valid, Connection.Streams, Connection.Fits;
      hide Fetched, Filling, Filled, LineLength;
      conn.IndexInFile();
      ghost var f := conn.node.value;
      ghost var was, start, done := status, conn.index, false;
      var k := 0;
      var c := Fgetc();
      FillStart(f.Bytes(), conn.Fits(f), was, start, status, c, conn.index);
      assert s[..0] == [];
      while status != EndOfFile && k < size - 1
        invariant !done
        invariant conn.node == Some(f) && conn.Streams(f) && k < size
        invariant Filling(f.Bytes(), conn.Fits(f), was, start, s[..k], status, c, conn.index)
        decreases size - k
      {
        var last := c;
        c := FgetsStep(s, size, k, last, was, start);
        k := k + 1;
        if last == NEWLINE {
          done := true;
          break;
        }
      }
      n := k;
      if !done {
        FillStop(f.Bytes(), conn.Fits(f), was, start, size, s[..k], status, c, conn.index);
      }
      ghost var got := s[..k];
      s[k] := 0;
      assert s[..k] == got;
    }

    // One turn of the loop in fgets: the byte read last is stored, and unless it ends the line
    // another one is read.
    method FgetsStep(s: array<Byte>, ghost size: nat, k: nat, last: int, ghost was: Status, ghost start: nat) returns (c: int)
      requires conn.node.Some? && conn.Streams(conn.node.value) && s != conn.ring.data
      requires k + 1 < size <= s.Length && status != EndOfFile
      requires Filling(conn.node.value.Bytes(), conn.Fits(conn.node.value), was, start, s[..k], status, last, conn.index)
      modifies this`status, conn`serverIndex, conn`index, conn.ring, conn.ring.data, s
      ensures conn.node == old(conn.node) && conn.Streams(conn.node.value)
      ensures last == NEWLINE ==> Filled(conn.node.value.Bytes(), conn.Fits(conn.node.value), was, start, size, s[..k + 1], status, conn.index)
      ensures last != NEWLINE ==> Filling(conn.node.value.Bytes(), conn.Fits(conn.node.value), was, start, s[..k + 1], status, c, conn.index)
    {
      hide FileData.Bytes, FileData.Mapped, RingBuffer.Contents, RingBuffer.Valid, Connection.Streams, Connection.Fits, Fetched, Filling, Filled;
      ghost var f := conn.node.value;
      ghost var got := s[..k];
      s[k] := Unsigned(last);
      assert s[..k + 1] == got + [Unsigned(last)];
      c := last;
      if last == NEWLINE {
        FillNewline(f.Bytes(), conn.Fits(f), was, start, size, got, status, last, conn.index);
        return;
      }
      ghost var mid, at := status, conn.index;
      c := Fgetc();
      FillNext(f.Bytes(), conn.Fits(f), was, start, got, mid, last, at, status, c, conn.index);
    }
  }

  lemma Appended(s: seq<Byte>, i: nat, j: nat, k: nat)
    requires i <= j <= k <= |s|
    ensures s[i..j] + s[j..k] == s[i..k]
  {
  }
}
