/** The ext2 server's inodes: where an inode lies on the disk, reading and rewriting it through the
    one block buffer, and the blocks that it maps. */
module Ext2Inodes {
  import opened Common
  import opened Bytes
  import FileStream

  const DESCRIPTOR_SIZE := 32

  // Offsets in a group descriptor and in an inode
  const INODE_TABLE := 8
  const DIRECT := 40
  const SINGLE_INDIRECT := 88

  // The size of an inode structure; a slot on the disk may be larger.
  const INODE_STRUCT := 120

  type Disk = seq<seq<Byte>>

  /** What the superblock says. */
  datatype Geometry = Geometry(blockSize: nat, inodeSize: nat, inodesPerGroup: nat, totalInodes: nat, totalBlocks: nat)

  // ----- Where inode n is -----

  function InodesPerBlock(g: Geometry): nat
    requires g.inodeSize > 0
  {
    g.blockSize / g.inodeSize
  }

  function BlockGroup(g: Geometry, n: nat): nat
    requires n > 0 && g.inodesPerGroup > 0
  {
    (n - 1) / g.inodesPerGroup
  }

  function GroupIndex(g: Geometry, n: nat): nat
    requires n > 0 && g.inodesPerGroup > 0
  {
    (n - 1) % g.inodesPerGroup
  }

  function DescriptorBlock(g: Geometry): nat {
    if g.blockSize == 1024 then 2 else 1
  }

  predicate Sized(g: Geometry) {
    1024 <= g.blockSize <= PAGE_SIZE && INODE_STRUCT <= g.inodeSize <= g.blockSize && g.inodesPerGroup > 0
  }

  lemma PerBlockPositive(g: Geometry)
    requires Sized(g)
    ensures 0 < InodesPerBlock(g) && InodesPerBlock(g) * g.inodeSize <= g.blockSize
  {
  }

  function Table(disk: Disk, g: Geometry, group: nat): nat {
    if DescriptorBlock(g) < |disk| then WordAt(disk[DescriptorBlock(g)], DESCRIPTOR_SIZE * group + INODE_TABLE) else 0
  }

  // Which block of its group's table an inode is in, and where in that block
  function TableIndex(g: Geometry, n: nat): nat
    requires Sized(g) && n > 0
  {
    PerBlockPositive(g);
    GroupIndex(g, n) / InodesPerBlock(g)
  }

  ghost function BlockOf(disk: Disk, g: Geometry, n: nat): nat
    requires Sized(g) && n > 0
  {
    Table(disk, g, BlockGroup(g, n)) + TableIndex(g, n)
  }

  function OffsetOf(g: Geometry, n: nat): nat
    requires Sized(g) && n > 0
  {
    PerBlockPositive(g);
    GroupIndex(g, n) % InodesPerBlock(g) * g.inodeSize
  }

  ghost predicate Exists(g: Geometry, n: nat) {
    1 <= n <= g.totalInodes
  }

  // The blocks of one group's inode table
  function TableBlocks(g: Geometry): nat
    requires g.inodeSize > 0 && InodesPerBlock(g) > 0
  {
    (g.inodesPerGroup + InodesPerBlock(g) - 1) / InodesPerBlock(g)
  }

  ghost predicate Disjoint(a: nat, b: nat, len: nat) {
    a + len <= b || b + len <= a
  }

  // The table of the group that inode n is in: described in the one block of descriptors, and
  // within the file system, without that block.
  ghost predicate TablePlaced(disk: Disk, g: Geometry, n: nat)
    requires Sized(g) && n > 0
  {
    PerBlockPositive(g);
    var table := Table(disk, g, BlockGroup(g, n));
    && DESCRIPTOR_SIZE * (BlockGroup(g, n) + 1) <= g.blockSize
    && table + TableBlocks(g) <= g.totalBlocks + 1
    && !(table <= DescriptorBlock(g) < table + TableBlocks(g))
  }

  ghost predicate TablesApart(disk: Disk, g: Geometry, m: nat, n: nat)
    requires Sized(g) && m > 0 && n > 0
  {
    PerBlockPositive(g);
    BlockGroup(g, m) != BlockGroup(g, n) ==>
      Disjoint(Table(disk, g, BlockGroup(g, m)), Table(disk, g, BlockGroup(g, n)), TableBlocks(g))
  }

  // A sound file system: one block holds the descriptors, and the groups' inode tables overlap
  // neither each other nor that block.
  ghost predicate Laid(disk: Disk, g: Geometry) {
    && Sized(g) && |disk| == g.totalBlocks + 1 && DescriptorBlock(g) <= g.totalBlocks
    && (forall b | 0 <= b < |disk| :: |disk[b]| == g.blockSize)
    && (forall n | Exists(g, n) :: TablePlaced(disk, g, n))
    && (forall m, n | Exists(g, m) && Exists(g, n) :: TablesApart(disk, g, m, n))
  }

  // An inode's block is one of its group's table.
  lemma {:induction false} BlockInTable(disk: Disk, g: Geometry, n: nat)
    requires Sized(g) && n > 0
    ensures InodesPerBlock(g) > 0
    ensures var table := Table(disk, g, BlockGroup(g, n)); table <= BlockOf(disk, g, n) < table + TableBlocks(g)
  {
    PerBlockPositive(g);
    assert GroupIndex(g, n) < g.inodesPerGroup;
    hide Table, GroupIndex, BlockGroup, InodesPerBlock;
    CeilingAbove(GroupIndex(g, n), g.inodesPerGroup, InodesPerBlock(g));
  }

  lemma CeilingAbove(i: nat, count: nat, p: nat)
    requires p > 0 && i < count
    ensures i / p < (count + p - 1) / p
  {
    var q := i / p;
    assert q * p <= i;
    assert (q + 1) * p == q * p + p <= count + p - 1;
    DivAtLeast(count + p - 1, p, q + 1);
  }

  lemma DivAtLeast(n: nat, p: nat, q: nat)
    requires p > 0 && q * p <= n
    ensures q <= n / p
  {
    var d := n / p;
    assert n < d * p + p == (d + 1) * p;
    if d + 1 <= q {
      MulMono(d + 1, q, p);
    }
  }

  // An inode's slot is within its block.
  lemma SlotFits(g: Geometry, n: nat)
    requires Sized(g) && n > 0
    ensures OffsetOf(g, n) + g.inodeSize <= g.blockSize
  {
    PerBlockPositive(g);
    var k, p := GroupIndex(g, n) % InodesPerBlock(g), InodesPerBlock(g);
    MulStep(k, p, g.inodeSize);
  }

  lemma MulStep(k: nat, p: nat, size: nat)
    requires k < p
    ensures k * size + size <= p * size
  {
    assert (k + 1) * size <= p * size by { MulMono(k + 1, p, size); }
  }

  // Two inodes never share a byte.
  lemma {:induction false} InodesApart(disk: Disk, g: Geometry, m: nat, n: nat)
    requires Laid(disk, g) && Exists(g, m) && Exists(g, n) && m != n
    ensures BlockOf(disk, g, m) != BlockOf(disk, g, n)
            || OffsetOf(g, m) + g.inodeSize <= OffsetOf(g, n) || OffsetOf(g, n) + g.inodeSize <= OffsetOf(g, m)
  {
    if BlockGroup(g, m) == BlockGroup(g, n) {
      SameGroupApart(disk, g, m, n);
    } else {
      BlockInTable(disk, g, m);
      BlockInTable(disk, g, n);
      assert TablesApart(disk, g, m, n);
      hide BlockOf, Table, TableBlocks, InodesPerBlock;
    }
  }

  lemma {:induction false} SameGroupApart(disk: Disk, g: Geometry, m: nat, n: nat)
    requires Sized(g) && m > 0 && n > 0 && m != n && BlockGroup(g, m) == BlockGroup(g, n)
    ensures BlockOf(disk, g, m) != BlockOf(disk, g, n)
            || OffsetOf(g, m) + g.inodeSize <= OffsetOf(g, n) || OffsetOf(g, n) + g.inodeSize <= OffsetOf(g, m)
  {
    PerBlockPositive(g);
    DivModDiffer(m - 1, n - 1, g.inodesPerGroup);
    var i, j := GroupIndex(g, m), GroupIndex(g, n);
    assert i != j;
    hide Table, BlockGroup, GroupIndex, InodesPerBlock;
    SlotsApart(i, j, InodesPerBlock(g), g.inodeSize);
  }

  lemma SlotsApart(i: nat, j: nat, p: nat, size: nat)
    requires i != j && p > 0
    ensures i / p != j / p || i % p * size + size <= j % p * size || j % p * size + size <= i % p * size
  {
    if i / p == j / p {
      DivModDiffer(i, j, p);
      if i % p < j % p { MulStep(i % p, j % p, size); } else { MulStep(j % p, i % p, size); }
    }
  }

  lemma DivModDiffer(a: nat, b: nat, p: nat)
    requires p > 0 && a != b && a / p == b / p
    ensures a % p != b % p
  {
    assert a == a / p * p + a % p && b == b / p * p + b % p;
  }

  // ----- The numbering, in numbers -----

  // Inode group * inodesPerGroup + i + 1 is in slot i of its group's table, counted in disk order
  // from the block that the word at 8 in the group's 32-byte descriptor names.
  lemma {:induction false} Numbered(disk: Disk, g: Geometry, n: nat, group: nat, i: nat)
    requires Sized(g) && i < g.inodesPerGroup && n == group * g.inodesPerGroup + i + 1
    ensures var d, p := if g.blockSize == 1024 then 2 else 1, g.blockSize / g.inodeSize;
            && p > 0 && i / p * p + i % p == i
            && BlockOf(disk, g, n) == (if d < |disk| then WordAt(disk[d], 32 * group + 8) else 0) + i / p
            && OffsetOf(g, n) == i % p * g.inodeSize
  {
    hide WordAt;
    PerBlockPositive(g);
    Unique(n - 1, g.inodesPerGroup, group, i);
  }

  // So inode 1 is at the very start of the first table, ...
  lemma FirstInode(disk: Disk, g: Geometry)
    requires Sized(g)
    ensures BlockOf(disk, g, 1) == Table(disk, g, 0) && OffsetOf(g, 1) == 0
  {
    hide WordAt, BlockOf, OffsetOf;
    Numbered(disk, g, 1, 0, 0);
  }

  // ... and the next inode's slot is the next one in its block, or the first one of the next block,
  // or, after the last inode of the group, the first one of the next group's table.
  lemma {:induction false} NextInode(disk: Disk, g: Geometry, n: nat, group: nat, i: nat)
    requires Sized(g) && i < g.inodesPerGroup && n == group * g.inodesPerGroup + i + 1
    ensures if i + 1 == g.inodesPerGroup then
              BlockOf(disk, g, n + 1) == Table(disk, g, group + 1) && OffsetOf(g, n + 1) == 0
            else if OffsetOf(g, n) + 2 * g.inodeSize <= g.blockSize then
              BlockOf(disk, g, n + 1) == BlockOf(disk, g, n) && OffsetOf(g, n + 1) == OffsetOf(g, n) + g.inodeSize
            else
              BlockOf(disk, g, n + 1) == BlockOf(disk, g, n) + 1 && OffsetOf(g, n + 1) == 0
  {
    hide WordAt, BlockOf, OffsetOf;
    if i + 1 == g.inodesPerGroup {
      NextGroup(disk, g, n, group);
    } else {
      Numbered(disk, g, n, group, i);
      Numbered(disk, g, n + 1, group, i + 1);
      NextSlot(i, g.blockSize / g.inodeSize, g.inodeSize, g.blockSize);
    }
  }

  lemma NextGroup(disk: Disk, g: Geometry, n: nat, group: nat)
    requires Sized(g) && n == group * g.inodesPerGroup + g.inodesPerGroup
    ensures BlockOf(disk, g, n + 1) == Table(disk, g, group + 1) && OffsetOf(g, n + 1) == 0
  {
    hide WordAt, BlockOf, OffsetOf;
    assert (group + 1) * g.inodesPerGroup == n;
    Numbered(disk, g, n + 1, group + 1, 0);
  }

  lemma {:induction false} NextSlot(i: nat, p: nat, size: nat, blockSize: nat)
    requires size > 0 && p == blockSize / size > 0
    ensures if i % p * size + 2 * size <= blockSize then (i + 1) / p == i / p && (i + 1) % p * size == i % p * size + size
            else (i + 1) / p == i / p + 1 && (i + 1) % p * size == 0
  {
    var q, k := i / p, i % p;
    assert i == q * p + k;
    SlotRoom(k, p, size, blockSize);
    if k + 1 < p {
      Unique(i + 1, p, q, k + 1);
      assert (k + 1) * size == k * size + size;
    } else {
      assert (q + 1) * p == q * p + p;
      Unique(i + 1, p, q + 1, 0);
    }
  }

  // After slot k of p there is room for another one exactly when there is another one.
  lemma SlotRoom(k: nat, p: nat, size: nat, blockSize: nat)
    requires size > 0 && p == blockSize / size && k < p
    ensures k * size + 2 * size <= blockSize <==> k + 1 < p
  {
    assert (k + 2) * size == k * size + 2 * size;
    assert p * size <= blockSize < p * size + size == (p + 1) * size;
    if k + 1 < p {
      MulMono(k + 2, p, size);
    } else {
      assert k + 2 == p + 1;
    }
  }

  ghost function InodeAt(disk: Disk, g: Geometry, n: nat): seq<Byte>
    requires Laid(disk, g) && Exists(g, n)
  {
    SlotFits(g, n);
    BlockExists(disk, g, n);
    disk[BlockOf(disk, g, n)][OffsetOf(g, n)..OffsetOf(g, n) + INODE_STRUCT]
  }

  // The contents of the block that an inode is in
  ghost function InodeBlock(disk: Disk, g: Geometry, n: nat): seq<Byte>
    requires Laid(disk, g) && Exists(g, n)
  {
    BlockExists(disk, g, n);
    disk[BlockOf(disk, g, n)]
  }

  lemma InodePlace(disk: Disk, g: Geometry, n: nat)
    requires Laid(disk, g) && Exists(g, n)
    ensures Sized(g) && DESCRIPTOR_SIZE * (BlockGroup(g, n) + 1) <= g.blockSize
    ensures BlockOf(disk, g, n) == Table(disk, g, BlockGroup(g, n)) + TableIndex(g, n) <= g.totalBlocks
    ensures OffsetOf(g, n) + INODE_STRUCT <= g.blockSize
    ensures |disk| == g.totalBlocks + 1 && |disk[BlockOf(disk, g, n)]| == g.blockSize
    ensures InodeBlock(disk, g, n) == disk[BlockOf(disk, g, n)]
    ensures InodeAt(disk, g, n) == InodeBlock(disk, g, n)[OffsetOf(g, n)..OffsetOf(g, n) + INODE_STRUCT]
  {
    PerBlockPositive(g);
    SlotFits(g, n);
    BlockInTable(disk, g, n);
    assert TablePlaced(disk, g, n);
    hide Table, TableBlocks, InodesPerBlock, BlockGroup, GroupIndex;
  }

  // An inode's block is in the file system and is not the block of descriptors.
  lemma BlockExists(disk: Disk, g: Geometry, n: nat)
    requires Laid(disk, g) && Exists(g, n)
    ensures BlockOf(disk, g, n) <= g.totalBlocks && BlockOf(disk, g, n) != DescriptorBlock(g)
  {
    BlockInTable(disk, g, n);
    assert TablePlaced(disk, g, n);
    hide BlockOf, Table, TableBlocks, BlockGroup, InodesPerBlock;
  }

  // ----- Rewriting one inode -----

  ghost function Patched(block: seq<Byte>, at: nat, v: seq<Byte>): (r: seq<Byte>)
    requires at + |v| <= |block|
    ensures |r| == |block|
  {
    block[..at] + v + block[at + |v|..]
  }

  lemma PatchedParts(block: seq<Byte>, at: nat, v: seq<Byte>)
    requires at + |v| <= |block|
    ensures Patched(block, at, v)[at..at + |v|] == v
    ensures forall i, j | 0 <= i <= j <= at || at + |v| <= i <= j <= |block| :: Patched(block, at, v)[i..j] == block[i..j]
  {
  }

  ghost function Rewritten(disk: Disk, g: Geometry, n: nat, v: seq<Byte>): Disk
    requires Laid(disk, g) && Exists(g, n) && |v| == INODE_STRUCT
  {
    SlotFits(g, n);
    BlockExists(disk, g, n);
    var b := BlockOf(disk, g, n);
    disk[b := Patched(disk[b], OffsetOf(g, n), v)]
  }

  // Every inode stays where it was.
  lemma {:induction false} RewrittenLaid(disk: Disk, g: Geometry, n: nat, v: seq<Byte>)
    requires Laid(disk, g) && Exists(g, n) && |v| == INODE_STRUCT
    ensures Laid(Rewritten(disk, g, n, v), g)
    ensures forall m | Exists(g, m) :: BlockOf(Rewritten(disk, g, n, v), g, m) == BlockOf(disk, g, m)
  {
    BlockExists(disk, g, n);
    SlotFits(g, n);
    var d := Rewritten(disk, g, n, v);
    assert d[DescriptorBlock(g)] == disk[DescriptorBlock(g)];
    assert forall group :: Table(d, g, group) == Table(disk, g, group);
    hide Table, BlockGroup, GroupIndex, InodesPerBlock, TableBlocks, Rewritten;
    forall m | Exists(g, m)
      ensures TablePlaced(d, g, m) && BlockOf(d, g, m) == BlockOf(disk, g, m)
    {
      assert TablePlaced(disk, g, m);
    }
    forall m, k | Exists(g, m) && Exists(g, k)
      ensures TablesApart(d, g, m, k)
    {
      assert TablesApart(disk, g, m, k);
    }
  }

  // The inode has its new value, every other inode its old one, and no other block changes.
  lemma {:induction false} RewrittenInodes(disk: Disk, g: Geometry, n: nat, v: seq<Byte>)
    requires Laid(disk, g) && Exists(g, n) && |v| == INODE_STRUCT
    ensures Laid(Rewritten(disk, g, n, v), g)
    ensures InodeAt(Rewritten(disk, g, n, v), g, n) == v
    ensures forall m | Exists(g, m) && m != n :: InodeAt(Rewritten(disk, g, n, v), g, m) == InodeAt(disk, g, m)
    ensures forall b | 0 <= b < |disk| && b != BlockOf(disk, g, n) :: Rewritten(disk, g, n, v)[b] == disk[b]
  {
    hide Laid, InodeAt, Rewritten, BlockOf;
    LaidSizes(disk, g);
    RewrittenLaid(disk, g, n, v);
    RewrittenSelf(disk, g, n, v);
    forall m | Exists(g, m) && m != n
      ensures InodeAt(Rewritten(disk, g, n, v), g, m) == InodeAt(disk, g, m)
    {
      RewrittenOther(disk, g, n, v, m);
    }
  }

  lemma {:induction false} RewrittenSelf(disk: Disk, g: Geometry, n: nat, v: seq<Byte>)
    requires Laid(disk, g) && Exists(g, n) && |v| == INODE_STRUCT && Laid(Rewritten(disk, g, n, v), g)
    requires BlockOf(Rewritten(disk, g, n, v), g, n) == BlockOf(disk, g, n)
    ensures InodeAt(Rewritten(disk, g, n, v), g, n) == v
    ensures |Rewritten(disk, g, n, v)| == |disk|
    ensures forall b | 0 <= b < |disk| && b != BlockOf(disk, g, n) :: Rewritten(disk, g, n, v)[b] == disk[b]
  {
    hide Laid, BlockOf, OffsetOf, Patched;
    LaidSizes(disk, g);
    InodePlace(disk, g, n);
    InodePlace(Rewritten(disk, g, n, v), g, n);
    PatchedParts(disk[BlockOf(disk, g, n)], OffsetOf(g, n), v);
  }

  lemma {:induction false} RewrittenOther(disk: Disk, g: Geometry, n: nat, v: seq<Byte>, m: nat)
    requires Laid(disk, g) && Exists(g, n) && Exists(g, m) && m != n && |v| == INODE_STRUCT && Laid(Rewritten(disk, g, n, v), g)
    requires BlockOf(Rewritten(disk, g, n, v), g, m) == BlockOf(disk, g, m)
    ensures InodeAt(Rewritten(disk, g, n, v), g, m) == InodeAt(disk, g, m)
  {
    InodesApart(disk, g, m, n);
    hide Laid, BlockOf, OffsetOf, Patched;
    LaidSizes(disk, g);
    InodePlace(disk, g, n);
    InodePlace(disk, g, m);
    InodePlace(Rewritten(disk, g, n, v), g, m);
    PatchedParts(disk[BlockOf(disk, g, n)], OffsetOf(g, n), v);
  }

  // ----- The blocks of a file -----

  // The pointer to a file's block, direct or through the first indirect block; 0 for a hole and for
  // blocks beyond, which the server does not reach; None if the indirect block cannot be read.
  function PointerTo(disk: Disk, g: Geometry, inode: seq<Byte>, block: nat): Option<nat> {
    if block < 12 then Some(WordAt(inode, DIRECT + 4 * block))
    else if block < g.blockSize / 4 + 12 then
      var s := WordAt(inode, SINGLE_INDIRECT);
      if s == 0 then Some(0)
      else if s > g.totalBlocks || s >= |disk| then None
      else Some(WordAt(disk[s], 4 * (block - 12)))
    else Some(0)
  }

  // The block that holds a file's block, if there is one.
  function Mapped(disk: Disk, g: Geometry, inode: seq<Byte>, block: nat): Option<nat> {
    match PointerTo(disk, g, inode, block)
    case None => None
    case Some(r) => if r == 0 || r > g.totalBlocks then None else Some(r)
  }

  class Ext2 {
    const g: Geometry
    // The one block buffer, a page
    const buffer: array<Byte>
    var disk: Disk

    ghost predicate Valid()
      reads this
    {
      buffer.Length == PAGE_SIZE && Laid(disk, g)
    }

    constructor (g: Geometry, disk: Disk)
      requires Laid(disk, g)
      ensures Valid() && this.g == g && this.disk == disk && fresh(buffer)
    {
      this.g, this.disk := g, disk;
      buffer := new Byte[PAGE_SIZE](_ => 0);
    }

    // ext2_read_block. The device is taken to have a block for the number totalBlocks too, which
    // the check lets through.
    method ReadBlock(block: nat) returns (ok: bool)
      requires Valid()
      modifies buffer
      ensures ok <==> block <= g.totalBlocks
      ensures ok ==> buffer[..g.blockSize] == disk[block]
      ensures !ok ==> buffer[..] == old(buffer[..])
    {
      if block > g.totalBlocks {
        return false;
      }
      for i := 0 to g.blockSize
        invariant buffer[..i] == disk[block][..i]
      {
        buffer[i] := disk[block][i];
        assert buffer[..i + 1] == buffer[..i] + [disk[block][i]];
      }
      assert disk[block][..g.blockSize] == disk[block];
      ok := true;
    }

    // ext2_write_block
    method WriteBlock(block: nat) returns (ok: bool)
      requires buffer.Length == PAGE_SIZE && |disk| == g.totalBlocks + 1 && g.blockSize <= PAGE_SIZE
      modifies this`disk
      ensures ok <==> block <= g.totalBlocks
      ensures disk == if ok then old(disk)[block := buffer[..g.blockSize]] else old(disk)
    {
      if block > g.totalBlocks {
        return false;
      }
      disk := disk[block := buffer[..g.blockSize]];
      ok := true;
    }

    // The word descs[group].inode_table, once the descriptors are in the buffer.
    method TableOf(group: nat) returns (table: nat)
      requires Valid()
      modifies buffer
      ensures DESCRIPTOR_SIZE * (group + 1) <= g.blockSize ==> table == Table(disk, g, group)
    {
      var ok := ReadBlock(DescriptorBlock(g));
      var at := DESCRIPTOR_SIZE * group + INODE_TABLE;
      table := WordAt(buffer[..], at);
      ghost var d := disk[DescriptorBlock(g)];
      assert buffer[..g.blockSize] == d;
      if DESCRIPTOR_SIZE * (group + 1) <= g.blockSize {
        SameWord(buffer[..], d, at);
      }
    }

    // ext2_get_inode: a copy of the inode, and where in the buffer it is. The block of
    // descriptors is gone from the buffer by then.
    method GetInode(n: nat) returns (at: Option<nat>, inode: seq<Byte>)
      requires Valid() && n > 0
      modifies buffer
      ensures at == if n <= g.totalInodes then Some(OffsetOf(g, n)) else None
      ensures n <= g.totalInodes ==> inode == InodeAt(disk, g, n) && buffer[..g.blockSize] == InodeBlock(disk, g, n)
    {
      hide Laid, BlockOf, OffsetOf, Table, BlockGroup, TableIndex, WordAt, InodeAt, InodeBlock;
      LaidSizes(disk, g);
      var table := TableOf(BlockGroup(g, n));
      inode := [];
      if n > g.totalInodes {
        return None, [];
      }
      InodePlace(disk, g, n);
      var ok := ReadBlock(table + TableIndex(g, n));
      var start := OffsetOf(g, n);
      inode := buffer[start..start + INODE_STRUCT];
      PrefixSlice(buffer[..], g.blockSize, start, start + INODE_STRUCT);
      at := Some(start);
    }

    // ext2_inode_table_block
    method InodeTableBlock(n: nat) returns (block: nat)
      requires Valid() && n > 0
      modifies buffer
      ensures n <= g.totalInodes ==> block == BlockOf(disk, g, n)
    {
      hide Laid, Table, BlockGroup, TableIndex, WordAt;
      LaidSizes(disk, g);
      if n <= g.totalInodes {
        InodePlace(disk, g, n);
      }
      var table := TableOf(BlockGroup(g, n));
      block := table + TableIndex(g, n);
    }

    // ext2_inode_update: the inode is read again, changed in the buffer and its block written
    // back. All other inodes and blocks stay.
    method InodeUpdate(n: nat, v: seq<Byte>) returns (result: nat)
      requires Valid() && n > 0 && |v| == INODE_STRUCT
      modifies this`disk, buffer
      ensures Valid()
      ensures n > g.totalInodes ==> result == 0 && disk == old(disk)
      ensures n <= g.totalInodes ==> result == n && disk == Rewritten(old(disk), g, n, v) && InodeAt(disk, g, n) == v
      ensures n <= g.totalInodes ==> forall m | Exists(g, m) && m != n :: InodeAt(disk, g, m) == old(InodeAt(disk, g, m))
    {
      var block := InodeTableBlock(n);
      var at, inode := GetInode(n);
      if at.None? {
        return 0;
      }
      SlotFits(g, n);
      RewrittenInodes(disk, g, n, v);
      ghost var after := Rewritten(disk, g, n, v);
      InodePlace(disk, g, n);
      hide BlockOf, OffsetOf, InodeAt, Laid, Patched, WordAt;
      Overwrite(at.value, v);
      var ok := WriteBlock(block);
      assert disk == after;
      result := n;
    }

    // *bufptr = *iptr
    method Overwrite(at: nat, v: seq<Byte>)
      requires buffer.Length == PAGE_SIZE && at + |v| <= g.blockSize <= PAGE_SIZE
      modifies buffer
      ensures buffer[..g.blockSize] == Patched(old(buffer[..g.blockSize]), at, v)
    {
      ghost var was := buffer[..];
      for i := 0 to |v|
        invariant forall k | 0 <= k < PAGE_SIZE :: buffer[k] == if at <= k < at + i then v[k - at] else was[k]
      {
        buffer[at + i] := v[i];
      }
    }

    // What comes of a block pointer: the block it names, or zeros for no block, or nothing.
    ghost predicate Fetched(pointer: nat, ok: bool)
      requires Valid()
      reads this, buffer
    {
      && (ok <==> 0 < pointer <= g.totalBlocks)
      && (ok ==> buffer[..g.blockSize] == disk[pointer])
      && (pointer == 0 ==> forall k | 0 <= k < g.blockSize :: buffer[k] == 0)
    }

    // ext2_inode_read_block: the mapped block, or zeros and no result for a hole and for blocks
    // that the server does not reach.
    method InodeReadBlock(inode: seq<Byte>, block: nat) returns (ok: bool)
      requires Valid() && |inode| == INODE_STRUCT
      modifies buffer
      ensures ok <==> Mapped(disk, g, inode, block).Some?
      ensures ok ==> Mapped(disk, g, inode, block).value < |disk|
                     && buffer[..g.blockSize] == disk[Mapped(disk, g, inode, block).value]
      ensures PointerTo(disk, g, inode, block) == Some(0) ==> forall k | 0 <= k < g.blockSize :: buffer[k] == 0
      ensures block < 12 ==> Fetched(WordAt(inode, 40 + 4 * block), ok)
      ensures 12 <= block < 12 + g.blockSize / 4 ==>
                var q := WordAt(inode, 88);
                && (q == 0 ==> Fetched(0, ok)) && (q > g.totalBlocks ==> !ok)
                && (0 < q <= g.totalBlocks ==> Fetched(WordAt(disk[q], 4 * (block - 12)), ok))
      ensures block >= 12 + g.blockSize / 4 ==> Fetched(0, ok)
    {
      hide Laid, WordAt;
      LaidSizes(disk, g);
      var rBlock := 0;
      if block < 12 {
        rBlock := WordAt(inode, DIRECT + 4 * block);
      } else if block < g.blockSize / 4 + 12 {
        var indirect := WordAt(inode, SINGLE_INDIRECT);
        if indirect != 0 {
          var read := ReadBlock(indirect);
          if !read {
            // The source goes on with a null pointer.
            return false;
          }
          rBlock := WordAt(buffer[..], 4 * (block - 12));
          SameWord(buffer[..], disk[indirect], 4 * (block - 12));
        }
      }
      if rBlock != 0 {
        ok := ReadBlock(rBlock);
        return;
      }
      for i := 0 to g.blockSize
        invariant forall k | 0 <= k < i :: buffer[k] == 0
      {
        buffer[i] := 0;
      }
      ok := false;
    }
  }

  // What handle_read_block gets from ext2_inode_read_block is the block of the file that the read
  // stream serves.
  method ServeBlock(fs: Ext2, inode: seq<Byte>, block: nat, ghost size: nat, ghost count: nat)
    requires fs.Valid() && |inode| == INODE_STRUCT && FullyMapped(fs.disk, fs.g, inode, count) && block < count
    modifies fs.buffer
    ensures fs.g.blockSize <= fs.buffer.Length && block < |FileOf(fs.disk, fs.g, inode, size, count).blocks|
    ensures fs.buffer[..fs.g.blockSize] == FileOf(fs.disk, fs.g, inode, size, count).blocks[block]
  {
    hide Laid, Mapped;
    LaidSizes(fs.disk, fs.g);
    var ok := fs.InodeReadBlock(inode, block);
  }

  lemma LaidSizes(disk: Disk, g: Geometry)
    requires Laid(disk, g)
    ensures Sized(g) && |disk| == g.totalBlocks + 1 && DescriptorBlock(g) <= g.totalBlocks
    ensures forall b | 0 <= b < |disk| :: |disk[b]| == g.blockSize
  {
  }

  lemma PrefixSlice(s: seq<Byte>, k: nat, i: nat, j: nat)
    requires i <= j <= k <= |s|
    ensures s[..k][i..j] == s[i..j]
  {
  }

  lemma SameWord(a: seq<Byte>, b: seq<Byte>, at: nat)
    requires |b| <= |a| && a[..|b|] == b && at + 4 <= |b|
    ensures WordAt(a, at) == WordAt(b, at)
  {
    forall k | at <= k < at + 4
      ensures a[k] == b[k]
    {
      assert a[k] == a[..|b|][k];
    }
  }

  // ----- Files -----

  ghost predicate FullyMapped(disk: Disk, g: Geometry, inode: seq<Byte>, count: nat) {
    forall b | 0 <= b < count :: Mapped(disk, g, inode, b).Some?
  }

  ghost function FileOf(disk: Disk, g: Geometry, inode: seq<Byte>, size: nat, count: nat): FileStream.FileData
    requires Laid(disk, g) && FullyMapped(disk, g, inode, count)
  {
    LaidSizes(disk, g);
    hide Laid;
    FileStream.FileData(seq(count, b requires 0 <= b < count => MappedIn(disk, g, inode, b)), g.blockSize, size)
  }

  ghost function MappedIn(disk: Disk, g: Geometry, inode: seq<Byte>, b: nat): seq<Byte>
    requires |disk| == g.totalBlocks + 1 && Mapped(disk, g, inode, b).Some?
  {
    disk[Mapped(disk, g, inode, b).value]
  }

  // A fully mapped inode is a file that the read stream can serve, block by block.
  lemma FileServed(disk: Disk, g: Geometry, inode: seq<Byte>, size: nat, count: nat)
    requires Laid(disk, g) && FullyMapped(disk, g, inode, count) && size <= count * g.blockSize
    ensures FileOf(disk, g, inode, size, count).Mapped()
    ensures forall b | 0 <= b < count :: FileOf(disk, g, inode, size, count).blocks[b] == disk[Mapped(disk, g, inode, b).value]
  {
    LaidSizes(disk, g);
    hide Laid, Mapped;
  }
}
