/** ringbuffer.c: a byte queue in a shared page, and the bytes it holds as a sequence. */
module RingBuffers {
  import opened Common
  import opened Bytes

  // The size of the two indices and the size field.
  const HEADER_SIZE := 12

  function Min(a: nat, b: nat): nat {
    if a < b then a else b
  }

  // ----- The bytes between the indices -----

  ghost function Queued(d: seq<Byte>, r: nat, w: nat): seq<Byte>
    requires r <= |d| && w <= |d|
  {
    if r <= w then d[r..w] else d[r..] + d[..w]
  }

  function Used(size: nat, r: nat, w: nat): nat
    requires r <= size && w <= size
  {
    if r <= w then w - r else size - r + w
  }

  function Next(size: nat, i: nat): nat
    requires size > 0
  {
    (i + 1) % size
  }

  lemma NextIs(size: nat, i: nat)
    requires i < size
    ensures Next(size, i) == if i + 1 == size then 0 else i + 1
  {
  }

  lemma {:induction false} QueuedPut(d: seq<Byte>, r: nat, w: nat, b: Byte)
    requires r < |d| && w < |d| && Used(|d|, r, w) + 1 < |d|
    ensures Next(|d|, w) < |d| && Queued(d[w := b], r, Next(|d|, w)) == Queued(d, r, w) + [b]
  {
    NextIs(|d|, w);
    hide Next;
    var e := d[w := b];
    if r <= w {
      assert w + 1 < |d| ==> e[r..w + 1] == d[r..w] + [b];
      assert w + 1 == |d| ==> e[r..] == d[r..w] + [b] && e[r..] + e[..0] == e[r..];
    } else {
      assert e[..w + 1] == d[..w] + [b] && e[r..] == d[r..];
      assert d[r..] + (d[..w] + [b]) == (d[r..] + d[..w]) + [b];
    }
  }

  lemma {:induction false} QueuedGet(d: seq<Byte>, r: nat, w: nat)
    requires r < |d| && w < |d| && r != w
    ensures Next(|d|, r) < |d| && Queued(d, r, w) == [d[r]] + Queued(d, Next(|d|, r), w)
  {
    NextIs(|d|, r);
  }

  lemma QueuedLength(d: seq<Byte>, r: nat, w: nat)
    requires r < |d| && w < |d|
    ensures |Queued(d, r, w)| == Used(|d|, r, w) < |d|
    ensures Used(|d|, r, w) == 0 <==> r == w
    ensures Used(|d|, r, w) + 1 == |d| <==> Next(|d|, w) == r
  {
    NextIs(|d|, w);
  }

  // ----- c4_ringbuf_available -----

  // The subtraction of the indices wraps at 32 bits before it is reduced to the ring's size.
  function Available(size: nat, r: nat, w: nat): nat
    requires 0 < size && r < size && w < size
  {
    size - (w - r) % WORD % size
  }

  lemma ModPlus(q: int, size: nat, x: nat)
    requires size > 0
    ensures (q * size + x) % size == x % size
  {
    var k := x / size;
    assert x == k * size + x % size;
    assert (q + k) * size == q * size + k * size;
    Unique(q * size + x, size, q + k, x % size);
  }

  // Going back by less than the size, once the difference has wrapped at n.
  lemma WrappedMod(n: nat, size: nat, back: nat)
    requires size > 0 && 0 < back < size <= n
    ensures (n - back) % size == (size - back + n % size) % size
  {
    var q := n / size;
    assert n == q * size + n % size;
    assert (q - 1) * size == q * size - size;
    ModPlus(q - 1, size, size - back + n % size);
  }

  // What the function takes the used part to be.
  lemma {:induction false} AvailableExactly(size: nat, r: nat, w: nat)
    requires 0 < size < WORD && r < size && w < size
    ensures size - Available(size, r, w)
         == if r <= w then Used(size, r, w) else (Used(size, r, w) + WORD % size) % size
  {
    if r <= w {
      Unique(w - r, WORD, 0, w - r);
      Unique(w - r, size, 0, w - r);
    } else {
      Unique(w - r, WORD, -1, WORD - (r - w));
      WrappedMod(WORD, size, r - w);
    }
  }

  // It is the room left exactly when the indices have not wrapped or the size divides 2^32.
  lemma {:induction false} AvailableRight(size: nat, r: nat, w: nat)
    requires 0 < size < WORD && r < size && w < size
    ensures Available(size, r, w) == size - Used(size, r, w) <==> r <= w || WORD % size == 0
  {
    AvailableExactly(size, r, w);
    if r > w {
      Shifted(size, Used(size, r, w), WORD % size);
    }
  }

  lemma Shifted(size: nat, u: nat, c: nat)
    requires u < size && c < size
    ensures (u + c) % size == u <==> c == 0
  {
    if u + c >= size {
      Unique(u + c, size, 1, u + c - size);
    } else {
      Unique(u + c, size, 0, u + c);
    }
  }

  // A ring in one page has 4084 bytes: once wrapped, the used part is taken as 108 more, modulo the size.
  lemma AvailableInPage(r: nat, w: nat)
    requires w < r < 0x1000 - HEADER_SIZE
    ensures var size := 0x1000 - HEADER_SIZE;
            size - Available(size, r, w) == (Used(size, r, w) + 108) % size
  {
    AvailableExactly(0x1000 - HEADER_SIZE, r, w);
  }

  class RingBuffer {
    var readIndex: nat
    var writeIndex: nat
    const data: array<Byte>

    ghost predicate Valid()
      reads this
    {
      1 < data.Length < WORD && readIndex < data.Length && writeIndex < data.Length
    }

    ghost function Contents(): seq<Byte>
      requires Valid()
      reads this, data
    {
      Queued(data[..], readIndex, writeIndex)
    }

    // How many more bytes fit; one slot always stays free.
    ghost function Room(): nat
      requires Valid()
      reads this
    {
      data.Length - 1 - Used(data.Length, readIndex, writeIndex)
    }

    // When c4_ringbuf_available is right
    ghost predicate Exact()
      requires Valid()
      reads this
    {
      readIndex <= writeIndex || WORD % data.Length == 0
    }

    // A ring buffer in a region of so many bytes; one too small is refused by c4_ringbuf_init.
    constructor (size: nat)
      requires HEADER_SIZE + 1 < size < WORD
      ensures Valid() && data.Length == size - HEADER_SIZE && Contents() == [] && fresh(data)
    {
      readIndex, writeIndex := 0, 0;
      data := new Byte[size - HEADER_SIZE](_ => 0);
    }

    // c4_ringbuf_full
    method Full() returns (full: bool)
      requires Valid()
      ensures full <==> |Contents()| == data.Length - 1
    {
      QueuedLength(data[..], readIndex, writeIndex);
      return Next(data.Length, writeIndex) == readIndex;
    }

    // c4_ringbuf_empty
    method Empty() returns (empty: bool)
      requires Valid()
      ensures empty <==> Contents() == []
    {
      QueuedLength(data[..], readIndex, writeIndex);
      return readIndex == writeIndex;
    }

    // c4_ringbuf_can_write: right whenever the indices have not wrapped, so on an empty ring.
    method CanWrite(size: nat) returns (can: bool)
      requires Valid()
      ensures Exact() ==> (can <==> size <= Room())
      ensures can <==> size < Available(data.Length, readIndex, writeIndex)
    {
      AvailableRight(data.Length, readIndex, writeIndex);
      return size < Available(data.Length, readIndex, writeIndex);
    }

    // c4_ringbuf_can_read
    method CanRead(size: nat) returns (can: bool)
      requires Valid()
      ensures Exact() ==> (can <==> size <= |Contents()|)
      ensures can <==> size <= data.Length - Available(data.Length, readIndex, writeIndex)
    {
      AvailableRight(data.Length, readIndex, writeIndex);
      QueuedLength(data[..], readIndex, writeIndex);
      return size <= data.Length - Available(data.Length, readIndex, writeIndex);
    }

    // c4_ringbuf_put_byte
    method PutByte(b: Byte) returns (ok: bool)
      requires Valid()
      modifies this`writeIndex, data
      ensures Valid() && ok == (|old(Contents())| < data.Length - 1)
      ensures Contents() == if ok then old(Contents()) + [b] else old(Contents())
    {
      QueuedLength(data[..], readIndex, writeIndex);
      var full := Full();
      if full {
        return false;
      }
      QueuedPut(data[..], readIndex, writeIndex, b);
      ghost var was := data[..];
      data[writeIndex] := b;
      assert data[..] == was[writeIndex := b];
      writeIndex := Next(data.Length, writeIndex);
      return true;
    }

    // c4_ringbuf_get_byte
    method GetByte() returns (ok: bool, b: Byte)
      requires Valid()
      modifies this`readIndex
      ensures Valid() && ok == (old(Contents()) != [])
      ensures ok ==> old(Contents()) == [b] + Contents()
      ensures !ok ==> Contents() == old(Contents())
    {
      QueuedLength(data[..], readIndex, writeIndex);
      var empty := Empty();
      if empty {
        return false, 0;
      }
      QueuedGet(data[..], readIndex, writeIndex);
      b := data[readIndex];
      readIndex := Next(data.Length, readIndex);
      ok := true;
    }

    // c4_ringbuf_write: as many bytes as there is room for, at the end.
    method Write(source: seq<Byte>) returns (wrote: nat)
      requires Valid()
      modifies this`writeIndex, data
      ensures Valid() && wrote == Min(|source|, data.Length - 1 - |old(Contents())|)
      ensures Contents() == old(Contents()) + source[..wrote]
    {
      QueuedLength(data[..], readIndex, writeIndex);
      wrote := 0;
      while wrote < |source|
        invariant Valid() && wrote <= |source|
        invariant Contents() == old(Contents()) + source[..wrote] && |Contents()| < data.Length
      {
        var ok := PutByte(source[wrote]);
        if !ok {
          return;
        }
        QueuedLength(data[..], readIndex, writeIndex);
        wrote := wrote + 1;
      }
    }

    // c4_ringbuf_read: as many bytes as there are, from the front, into dest at offset at.
    method Read(dest: array<Byte>, at: nat, size: nat) returns (read: nat)
      requires Valid() && at + size <= dest.Length && dest != data
      modifies this`readIndex, dest
      ensures Valid() && read == Min(size, |old(Contents())|)
      ensures dest[at..at + read] == old(Contents())[..read] && Contents() == old(Contents())[read..]
      ensures forall k | 0 <= k < at || at + read <= k < dest.Length :: dest[k] == old(dest[k])
    {
      hide Queued, Used;
      ghost var all := Contents();
      read := 0;
      while read < size
        invariant Valid() && read <= size && read <= |all| && Contents() == all[read..]
        invariant dest[at..at + read] == all[..read]
        invariant forall k | 0 <= k < at || at + read <= k < dest.Length :: dest[k] == old(dest[k])
      {
        var ok, b := GetByte();
        if !ok {
          return;
        }
        assert all[read..] == [b] + Contents() && all[read] == b;
        assert Contents() == all[read + 1..];
        ghost var before := dest[at..at + read];
        dest[at + read] := b;
        assert dest[at..at + read] == before;
        read := read + 1;
      }
    }
  }
}
