/** addrman.c: an address region handed out page by page. Two trees index the same vnodes, one
    by offset and one by size; the sizes change while a vnode is in neither or only in the first. */
module AddrMan {
  import opened Common
  import opened AATree
  import opened AndTrees
  import opened PageBlocks

  class VNode {
    var size: nat
    const offset: nat
    var isFree: bool

    // make_vnode
    constructor (size: nat, offset: nat)
      ensures this.size == size && this.offset == offset && isFree
    {
      this.size, this.offset, isFree := size, offset, true;
    }
  }

  function VnodeGetOffset(v: VNode): int {
    v.offset
  }

  function VnodeGetSize(v: VNode): int
    reads v
  {
    v.size
  }

  // The number of pages that hold size bytes.
  function PagesFor(size: nat): nat {
    (size + PAGE_SIZE - 1) / PAGE_SIZE
  }

  lemma PagesEnough(size: nat)
    ensures PagesFor(size) == size / PAGE_SIZE + (if size % PAGE_SIZE != 0 then 1 else 0)
    ensures PagesFor(size) * PAGE_SIZE >= size && (size > 0 ==> (PagesFor(size) - 1) * PAGE_SIZE < size)
  {
  }

  // ----- Keys as they are at one moment -----

  ghost function OffsetKey(): VNode -> int {
    (v: VNode) => v.offset
  }

  ghost function SizeKey(m: map<VNode, nat>): VNode -> int {
    (v: VNode) => if v in m then m[v] else 0
  }

  ghost function Sizes(vs: seq<VNode>): (m: map<VNode, nat>)
    reads vs
    ensures m.Keys == set v | v in vs
    ensures forall v | v in vs :: m[v] == v.size
  {
    map v | v in vs :: v.size
  }

  ghost function BlocksOf(vs: seq<VNode>): (bs: seq<Block>)
    reads vs
    ensures |bs| == |vs|
    ensures forall i | 0 <= i < |vs| :: bs[i] == Block(vs[i].offset, vs[i].size, vs[i].isFree)
  {
    seq(|vs|, i requires 0 <= i < |vs| reads vs => Block(vs[i].offset, vs[i].size, vs[i].isFree))
  }

  ghost predicate BySize(vs: seq<VNode>)
    reads vs
  {
    forall i, j | 0 <= i < j < |vs| :: vs[i].size <= vs[j].size
  }

  ghost function FreeOf(vs: seq<VNode>): set<VNode>
    reads vs
  {
    set v | v in vs && v.isFree
  }

  class Region {
    const base: nat
    const layout: AndTree<VNode>
    const freeNodes: AndTree<VNode>
    ghost const pages: nat

    ghost function Blocks(): (bs: seq<Block>)
      reads layout, layout.contents
      ensures |bs| == |layout.contents|
    {
      BlocksOf(layout.contents)
    }

    lemma BlockAt(i: nat)
      requires i < |layout.contents|
      ensures var v := layout.contents[i]; Blocks()[i] == Block(v.offset, v.size, v.isFree)
    {
    }

    ghost predicate Trees()
      reads layout, freeNodes, layout.repr, freeNodes.repr
      reads layout.nil`level, layout.nil`left, layout.nil`right
    {
      && layout != freeNodes && layout.nil == freeNodes.nil && layout.repr !! freeNodes.repr
      && layout.nil !in layout.repr && layout.nil !in freeNodes.repr
      && layout.Valid() && freeNodes.Valid()
    }

    // freeNodes holds the free vnodes of the layout, each once, by size.
    ghost predicate Indexed()
      reads layout, freeNodes, layout.contents, freeNodes.contents
    {
      && NoDup(freeNodes.contents) && BySize(freeNodes.contents)
      && FreeSet() == FreeOf(layout.contents)
    }

    ghost predicate Consistent()
      reads layout, freeNodes, layout.repr, freeNodes.repr, layout.contents, freeNodes.contents
      reads layout.nil`level, layout.nil`left, layout.nil`right
    {
      && base + pages * PAGE_SIZE <= WORD
      && Trees() && Indexed() && Tiled(Blocks(), pages)
    }

    ghost predicate Valid()
      reads layout, freeNodes, layout.repr, freeNodes.repr, layout.contents, freeNodes.contents
      reads layout.nil`level, layout.nil`left, layout.nil`right
    {
      Consistent() && Merged(Blocks())
    }

    // c4rt_vaddr_region_create
    constructor (base: nat, pages: nat)
      requires base + pages * PAGE_SIZE <= WORD
      ensures Valid() && this.base == base && this.pages == pages
      ensures Blocks() == [Block(0, pages, true)]
    {
      this.base, this.pages := base, pages;
      var root := new VNode(pages, 0);
      var sentinel := new AndNode<VNode>.Sentinel(root);
      layout := new AndTree<VNode>(sentinel);
      freeNodes := new AndTree<VNode>(sentinel);
      new;
      assert NewTrees: Trees();
      Begin(root);
    }

    method Begin(root: VNode)
      requires Trees() && layout.contents == [] && freeNodes.contents == []
      requires root.offset == 0 && root.size == pages && root.isFree
      modifies layout, freeNodes, layout.nil`parent, layout.repr, freeNodes.repr
      ensures Trees() && Indexed() && Blocks() == [Block(0, pages, true)]
      ensures Tiled(Blocks(), pages) && Merged(Blocks())
    {
      hide Tiled, Merged, Indexed, Blocks, BlocksOf, AndTree.Valid;
      LayoutInsert(root);
      FreeInsert(root);
      OneElement(freeNodes.contents, root);
      OneVnode(root);
    }

    lemma OneVnode(v: VNode)
      requires layout.contents == [v] && freeNodes.contents == [v]
      requires v.offset == 0 && v.size == pages && v.isFree
      ensures Blocks() == [Block(0, pages, true)]
      ensures Indexed() && Tiled(Blocks(), pages) && Merged(Blocks())
    {
    }

    // ----- The two trees, seen as sequences of vnodes -----

    method LayoutInsert(v: VNode)
      requires Trees() && SortedBy(layout.contents, OffsetKey())
      modifies layout, layout.nil`parent, layout.repr
      ensures Trees() && SortedBy(layout.contents, OffsetKey()) && fresh(layout.repr - old(layout.repr))
      ensures freeNodes.contents == old(freeNodes.contents) && freeNodes.repr == old(freeNodes.repr)
      ensures layout.contents == Inserted(old(layout.contents), UpperBound(old(layout.contents), OffsetKey(), v.offset), v)
    {
      hide AndTree.Valid, UpperBound, SortedBy, Inserted;
      var n := layout.Insert(v, VnodeGetOffset, OffsetKey());
      layout.NilApart();
    }

    method LayoutRemove(v: VNode, ghost i: nat)
      requires Trees() && SortedBy(layout.contents, OffsetKey()) && NoDup(layout.contents)
      requires i < |layout.contents| && layout.contents[i] == v
      modifies layout, layout.nil`parent, layout.repr
      ensures Trees() && SortedBy(layout.contents, OffsetKey()) && layout.repr <= old(layout.repr)
      ensures freeNodes.contents == old(freeNodes.contents) && freeNodes.repr == old(freeNodes.repr)
      ensures layout.contents == Removed(old(layout.contents), i)
    {
      hide AndTree.Valid, SortedBy, Removed;
      var found;
      ghost var k;
      found, k := layout.RemoveData(v, VnodeGetOffset, OffsetKey());
      layout.NilApart();
    }

    ghost function FreeSet(): set<VNode>
      reads freeNodes`contents
    {
      Elements(freeNodes.contents)
    }

    method FreeInsertByKey(v: VNode, ghost key: VNode -> int)
      requires Trees() && SortedBy(freeNodes.contents, key)
      requires forall u | u in freeNodes.contents || u == v :: key(u) == u.size
      modifies freeNodes, layout.nil`parent, freeNodes.repr
      ensures Trees() && SortedBy(freeNodes.contents, key) && fresh(freeNodes.repr - old(freeNodes.repr))
      ensures layout.contents == old(layout.contents) && layout.repr == old(layout.repr)
      ensures freeNodes.contents == Inserted(old(freeNodes.contents), UpperBound(old(freeNodes.contents), key, key(v)), v)
    {
      hide AndTree.Valid, UpperBound, SortedBy, Inserted;
      var n := freeNodes.Insert(v, VnodeGetSize, key);
      freeNodes.NilApart();
    }

    method FreeInsert(v: VNode)
      requires Trees() && BySize(freeNodes.contents) && NoDup(freeNodes.contents)
      modifies freeNodes, layout.nil`parent, freeNodes.repr
      ensures Trees() && BySize(freeNodes.contents) && (NoDup(freeNodes.contents) <==> v !in old(freeNodes.contents))
      ensures layout.contents == old(layout.contents) && layout.repr == old(layout.repr)
      ensures FreeSet() == old(FreeSet()) + {v} && fresh(freeNodes.repr - old(freeNodes.repr))
    {
      hide Trees, UpperBound, Inserted, NoDup, BySize, SortedBy, Elements;
      ghost var s, vs := freeNodes.contents, freeNodes.contents + [v];
      ghost var key := SizeKey(Sizes(vs));
      BySizeIsSorted(s, vs);
      FreeInsertByKey(v, key);
      InsertedElements(s, UpperBound(s, key, v.size), v);
      SortedIsBySize(freeNodes.contents, vs);
    }

    lemma BySizeIsSorted(s: seq<VNode>, vs: seq<VNode>)
      requires BySize(s) && forall u | u in s :: u in vs
      ensures SortedBy(s, SizeKey(Sizes(vs)))
    {
    }

    lemma SortedIsBySize(s: seq<VNode>, vs: seq<VNode>)
      requires SortedBy(s, SizeKey(Sizes(vs))) && forall u | u in s :: u in vs
      ensures BySize(s)
    {
    }

    method FreeRemove(v: VNode)
      requires Trees() && BySize(freeNodes.contents) && NoDup(freeNodes.contents) && v in freeNodes.contents
      modifies freeNodes, layout.nil`parent, freeNodes.repr
      ensures Trees() && BySize(freeNodes.contents) && NoDup(freeNodes.contents)
      ensures layout.contents == old(layout.contents) && layout.repr == old(layout.repr)
      ensures FreeSet() == old(FreeSet()) - {v} && freeNodes.repr <= old(freeNodes.repr)
    {
      hide AndTree.Valid, Removed, NoDup;
      ghost var vs := freeNodes.contents;
      ghost var key := SizeKey(Sizes(vs));
      var found;
      ghost var i;
      found, i := freeNodes.RemoveData(v, VnodeGetSize, key);
      freeNodes.NilApart();
      RemovedElements(vs, i);
    }

    lemma PlaceAt(vs: seq<VNode>, o: nat, i: nat)
      requires SortedBy(vs, OffsetKey()) && i <= |vs|
      requires i > 0 ==> vs[i - 1].offset <= o
      requires i < |vs| ==> vs[i].offset > o
      ensures UpperBound(vs, OffsetKey(), o) == i
    {
      UpperBoundIs(vs, OffsetKey(), o, i);
    }

    // ----- Allocation -----

    // The layout holds what the blocks say, and freeNodes its free vnodes, whatever is merged.
    lemma LayoutSorted()
      requires Tiled(Blocks(), pages)
      ensures SortedBy(layout.contents, OffsetKey()) && NoDup(layout.contents)
      ensures forall i, j | 0 <= i < j < |layout.contents| :: layout.contents[i].offset < layout.contents[j].offset
    {
      forall i, j | 0 <= i < j < |layout.contents|
        ensures layout.contents[i].offset < layout.contents[j].offset
      {
        AddressOrder(Blocks(), pages, i, j);
      }
    }

    lemma Next(i: nat)
      requires Tiled(Blocks(), pages) && i + 1 < |layout.contents|
      ensures var vs := layout.contents; vs[i + 1].offset == vs[i].offset + vs[i].size
    {
      assert Blocks()[i + 1].offset == Blocks()[i].End();
    }

    lemma CarvedBlocks(vs: seq<VNode>, bs: seq<Block>, i: nat, vn: VNode)
      requires |bs| == |vs| && i < |vs| && vs[i].size < bs[i].size
      requires forall k | 0 <= k < |vs| && k != i :: bs[k] == Block(vs[k].offset, vs[k].size, vs[k].isFree)
      requires bs[i].offset == vs[i].offset && !vs[i].isFree
      requires vn.offset == bs[i].offset + vs[i].size && vn.size == bs[i].size - vs[i].size && vn.isFree
      ensures BlocksOf(Inserted(vs, i + 1, vn)) == Carved(bs, i, vs[i].size)
    {
      CarvedElements(bs, i, vs[i].size);
      var r := Inserted(vs, i + 1, vn);
      assert forall k | 0 <= k < |r| :: r[k] == if k <= i then vs[k] else if k == i + 1 then vn else vs[k - 1];
    }

    lemma BackInPlace(vs: seq<VNode>, i: nat)
      requires SortedBy(vs, OffsetKey()) && i < |vs|
      requires forall k, l | 0 <= k < l < |vs| :: vs[k].offset < vs[l].offset
      ensures SortedBy(Removed(vs, i), OffsetKey())
      ensures UpperBound(Removed(vs, i), OffsetKey(), vs[i].offset) == i
      ensures Inserted(Removed(vs, i), i, vs[i]) == vs
    {
      SortedRemoved(vs, i, OffsetKey());
      PlaceAt(Removed(vs, i), vs[i].offset, i);
      assert Removed(vs, i)[..i] == vs[..i] && Removed(vs, i)[i..] == vs[i + 1..];
    }

    // A change of the flag alone.
    method SetFree(node: VNode, free: bool, ghost i: nat)
      requires NoDup(layout.contents) && i < |layout.contents| && layout.contents[i] == node
      modifies node`isFree
      ensures node.isFree == free && Blocks() == old(Blocks())[i := old(Blocks()[i]).(free := free)]
      ensures FreeOf(layout.contents) == if free then old(FreeOf(layout.contents)) + {node} else old(FreeOf(layout.contents)) - {node}
    {
      hide NoDup;
      ghost var vs, bs := layout.contents, Blocks();
      OthersDiffer(vs, i);
      assert vs[i] in vs;
      node.isFree := free;
      assert forall k | 0 <= k < |vs| && k != i :: bs[k] == Blocks()[k];
    }

    // The first half of split_vnode: the vnode is free no longer.
    method Take(node: VNode, ghost i: nat)
      requires Trees() && Indexed() && Tiled(Blocks(), pages)
      requires i < |layout.contents| && layout.contents[i] == node && node.isFree
      modifies freeNodes, layout.nil`parent, freeNodes.repr, node`isFree
      ensures Trees() && Indexed() && freeNodes.repr <= old(freeNodes.repr)
      ensures layout.contents == old(layout.contents) && layout.repr == old(layout.repr)
      ensures !node.isFree && Blocks() == old(Blocks())[i := old(Blocks()[i]).(free := false)]
    {
      hide Trees, Tiled, BySize, NoDup, Blocks;
      LayoutSorted();
      ghost var vs := layout.contents;
      assert node in FreeOf(vs) by { assert vs[i] in vs; }
      FreeRemove(node);
      SetFree(node, false, i);
    }

    // What the second half does to the trees.
    method CutTrees(node: VNode, size: nat, ghost i: nat) returns (vn: VNode)
      requires Trees() && Indexed() && Tiled(Blocks(), pages)
      requires i < |layout.contents| && layout.contents[i] == node && !node.isFree && size < node.size
      modifies layout, freeNodes, layout.nil`parent, layout.repr, freeNodes.repr, node`size
      ensures Trees() && NoDup(freeNodes.contents) && BySize(freeNodes.contents)
      ensures fresh(vn) && vn.isFree && vn.offset == node.offset + size && vn.size == old(node.size) - size && node.size == size
      ensures layout.contents == Inserted(old(layout.contents), i + 1, vn) && FreeSet() == old(FreeSet()) + {vn}
    {
      hide Trees, Tiled, NoDup, BySize, Removed, Inserted, UpperBound, SortedBy, Blocks, BlocksOf;
      ghost var vs := layout.contents;
      LayoutSorted();
      if i + 1 < |vs| { Next(i); }
      assert node !in freeNodes.contents by {
        assert node in freeNodes.contents ==> node in FreeSet();
      }
      LayoutRemove(node, i);
      vn := new VNode(node.size - size, node.offset + size);
      node.size := size;
      FreeInsert(vn);
      PutBack(node, vn, vs, i);
    }

    // Both parts go into the layout, the lower one where it was.
    method PutBack(node: VNode, vn: VNode, ghost vs: seq<VNode>, ghost i: nat)
      requires Trees() && SortedBy(layout.contents, OffsetKey()) && SortedBy(vs, OffsetKey())
      requires i < |vs| && vs[i] == node && layout.contents == Removed(vs, i)
      requires forall k, l | 0 <= k < l < |vs| :: vs[k].offset < vs[l].offset
      requires node.offset <= vn.offset && (i + 1 < |vs| ==> vn.offset < vs[i + 1].offset)
      modifies layout, layout.nil`parent, layout.repr
      ensures Trees() && layout.contents == Inserted(vs, i + 1, vn) && fresh(layout.repr - old(layout.repr))
      ensures freeNodes.contents == old(freeNodes.contents) && freeNodes.repr == old(freeNodes.repr)
    {
      hide Trees, Removed, Inserted, UpperBound, SortedBy;
      BackInPlace(vs, i);
      LayoutInsert(node);
      PlaceAt(vs, vn.offset, i + 1);
      LayoutInsert(vn);
    }

    // The second half, for a vnode that is too large.
    method Cut(node: VNode, size: nat, ghost i: nat)
      requires Trees() && Indexed() && Tiled(Blocks(), pages)
      requires i < |layout.contents| && layout.contents[i] == node && !node.isFree && size < node.size
      modifies layout, freeNodes, layout.nil`parent, layout.repr, freeNodes.repr, node`size
      ensures Trees() && Indexed()
      ensures i < |layout.contents| && layout.contents[i] == node
      ensures Blocks() == Carved(old(Blocks()), i, size)
    {
      hide Trees, Tiled, Carved, NoDup, BySize, Inserted;
      ghost var bs, vs := Blocks(), layout.contents;
      LayoutSorted();
      OthersDiffer(vs, i);
      var vn := CutTrees(node, size, i);
      assert FreeOf(vs) == old(FreeOf(vs));
      CarvedBlocks(vs, bs, i, vn);
      FreeOfInserted(vs, i + 1, vn);
    }

    lemma OthersDiffer<T>(s: seq<T>, i: nat)
      requires NoDup(s) && i < |s|
      ensures forall k | 0 <= k < |s| && k != i :: s[k] != s[i]
    {
    }

    lemma FreeOfInserted(vs: seq<VNode>, i: nat, v: VNode)
      requires i <= |vs| && v.isFree
      ensures FreeOf(Inserted(vs, i, v)) == FreeOf(vs) + {v}
      ensures i > 0 ==> Inserted(vs, i, v)[i - 1] == vs[i - 1]
    {
      var r := Inserted(vs, i, v);
      assert r[i] == v;
      forall u | u in vs
        ensures u in r
      {
        var k :| 0 <= k < |vs| && vs[k] == u;
        assert r[if k < i then k else k + 1] == u;
      }
    }

    // split_vnode. A split for no page at all leaves two vnodes at one offset, so the region is
    // sound afterwards exactly when the size is not 0, or when the region has no page.
    method SplitVnode(node: VNode, size: nat, ghost i: nat)
      requires Valid() && i < |layout.contents| && layout.contents[i] == node && node.isFree && size <= node.size
      modifies layout, freeNodes, layout.nil`parent, layout.repr, freeNodes.repr, node
      ensures Trees() && Indexed() && i < |layout.contents| && layout.contents[i] == node
      ensures Blocks() == Carved(old(Blocks()), i, size)
      ensures Valid() <==> size > 0 || pages == 0
    {
      hide Trees, Indexed, Tiled, Merged, Blocks;
      BlockAt(i);
      ghost var bs := Blocks();
      CarvedSound(bs, pages, i, size);
      Take(node, i);
      UsedTiles(bs, pages, i);
      if size != node.size {
        Cut(node, size, i);
      }
    }

    // alloc_vnode
    method AllocVnode(size: nat) returns (r: VNode?, ghost i: nat)
      requires Valid()
      modifies layout, freeNodes, layout.nil`parent, layout.repr, freeNodes.repr, Elements(layout.contents)
      ensures Trees() && Indexed() && (Valid() <==> r == null || size > 0 || pages == 0)
      ensures r == null <==> NoFit(old(Blocks()), size)
      ensures r == null ==> Blocks() == old(Blocks())
      ensures r != null ==> BestFit(old(Blocks()), size, i) && Blocks() == Carved(old(Blocks()), i, size)
      ensures r != null ==> r.offset == old(Blocks())[i].offset && i < |layout.contents| && layout.contents[i] == r
    {
      hide AndTree.Valid, Tiled, Merged, NoDup, SortedBy, Carved;
      i := 0;
      ghost var vs, key := freeNodes.contents, SizeKey(Sizes(freeNodes.contents));
      BySizeIsSorted(vs, vs);
      var temp := freeNodes.FindAtLeast(size, VnodeGetSize, key);
      if temp == null {
        NothingFits(size);
        return null, i;
      }
      var node := temp.data;
      i := SmallestFits(node, size);
      if size <= node.size {
        SplitVnode(node, size, i);
        return node, i;
      }
      return null, i;
    }

    lemma NothingFits(size: nat)
      requires Indexed() && forall v | v in freeNodes.contents :: v.size < size
      ensures NoFit(Blocks(), size)
    {
      var vs := layout.contents;
      forall j | 0 <= j < |vs| && Blocks()[j].free
        ensures Blocks()[j].size < size
      {
        assert vs[j] in vs && vs[j] in FreeOf(vs);
        assert vs[j] in FreeSet();
      }
    }

    lemma SmallestFits(node: VNode, size: nat) returns (i: nat)
      requires Indexed() && node in freeNodes.contents && node.size >= size
      requires forall v | v in freeNodes.contents && v.size >= size :: v.size >= node.size
      ensures BestFit(Blocks(), size, i) && layout.contents[i] == node && node.isFree
    {
      var vs := layout.contents;
      assert node in FreeSet() && node in FreeOf(vs);
      i :| 0 <= i < |vs| && vs[i] == node;
      forall j | 0 <= j < |vs| && Blocks()[j].free && Blocks()[j].size >= size
        ensures Blocks()[i].size <= Blocks()[j].size
      {
        assert vs[j] in vs && vs[j] in FreeOf(vs);
        assert vs[j] in FreeSet();
      }
    }

    // ----- Freeing -----

    // What a merge does to the trees.
    method MergeTrees(lower: VNode, upper: VNode, ghost i: nat)
      requires Trees() && Indexed() && Tiled(Blocks(), pages)
      requires i + 1 < |layout.contents| && layout.contents[i] == lower && layout.contents[i + 1] == upper
      requires lower.isFree && upper.isFree
      modifies layout, freeNodes, layout.nil`parent, layout.repr, freeNodes.repr, lower`size
      ensures Trees() && NoDup(freeNodes.contents) && BySize(freeNodes.contents)
      ensures layout.repr <= old(layout.repr) && fresh(freeNodes.repr - old(freeNodes.repr))
      ensures lower.size == old(lower.size) + upper.size && upper.size == old(upper.size)
      ensures layout.contents == Removed(old(layout.contents), i + 1) && FreeSet() == old(FreeSet()) - {upper}
    {
      hide Trees, Tiled, NoDup, BySize, Removed, SortedBy, Blocks, BlocksOf;
      ghost var vs, fs := layout.contents, FreeSet();
      LayoutSorted();
      OthersDiffer(vs, i);
      assert lower in fs && upper in fs && lower != upper by {
        assert vs[i] in vs && vs[i + 1] in vs && vs[i + 1] != vs[i];
      }
      LayoutRemove(upper, i + 1);
      FreeRemove(lower);
      assert upper in FreeSet();
      FreeRemove(upper);
      assert lower !in freeNodes.contents by {
        assert lower in freeNodes.contents ==> lower in FreeSet();
      }
      lower.size := lower.size + upper.size;
      FreeInsert(lower);
      assert FreeSet() == fs - {upper};
    }

    lemma JoinedBlocks(vs: seq<VNode>, bs: seq<Block>, i: nat)
      requires |bs| == |vs| && i + 1 < |vs|
      requires forall k | 0 <= k < |vs| && k != i :: bs[k] == Block(vs[k].offset, vs[k].size, vs[k].isFree)
      requires bs[i].offset == vs[i].offset && bs[i].free == vs[i].isFree && vs[i].size == bs[i].size + bs[i + 1].size
      ensures BlocksOf(Removed(vs, i + 1)) == Join(bs, i)
    {
      var r := Removed(vs, i + 1);
      assert forall k | 0 <= k < |r| :: r[k] == if k <= i then vs[k] else vs[k + 1];
    }

    lemma FreeOfRemoved(vs: seq<VNode>, i: nat)
      requires NoDup(vs) && i < |vs|
      ensures FreeOf(Removed(vs, i)) == FreeOf(vs) - {vs[i]}
    {
      RemovedElements(vs, i);
    }

    // try_merge, for two vnodes that are neighbours in the layout
    method TryMerge(a: VNode?, b: VNode?, ghost i: int) returns (r: VNode?)
      requires Trees() && Tiled(Blocks(), pages)
      requires Indexed() || !(a != null && b != null && a.isFree && b.isFree)
      requires a != null && b != null ==>
                 0 <= i && i + 1 < |layout.contents| && layout.contents[i] == a && layout.contents[i + 1] == b
      modifies layout, freeNodes, layout.nil`parent, layout.repr, freeNodes.repr
      modifies (if a == null then {} else {a})`size
      ensures Trees() && (Indexed() <==> old(Indexed()))
      ensures r == null <==> !(a != null && b != null && a.isFree && b.isFree)
      ensures r == null ==> layout.contents == old(layout.contents) && layout.repr == old(layout.repr)
      ensures r == null ==> freeNodes.repr == old(freeNodes.repr) && Blocks() == old(Blocks())
      ensures r != null ==> r == a && layout.repr <= old(layout.repr) && fresh(freeNodes.repr - old(freeNodes.repr))
      ensures r != null ==> layout.contents == Removed(old(layout.contents), i + 1) && Blocks() == Join(old(Blocks()), i)
    {
      hide Trees, Tiled, NoDup, BySize, Removed;
      if a == null || b == null {
        return null;
      }
      if !a.isFree || !b.isFree {
        return null;
      }
      ghost var vs, bs := layout.contents, Blocks();
      LayoutSorted();
      OthersDiffer(vs, i);
      var lower := if a.offset < b.offset then a else b;
      var upper := if a.offset < b.offset then b else a;
      MergeTrees(lower, upper, i);
      assert FreeOf(vs) == old(FreeOf(vs));
      JoinedBlocks(vs, bs, i);
      FreeOfRemoved(vs, i + 1);
      r := lower;
    }

    // The vnodes before and after the one at k, found by stepping through the layout tree.
    method Neighbours(temp: VNode, ghost k: nat) returns (prev: VNode?, next: VNode?)
      requires Trees() && SortedBy(layout.contents, OffsetKey()) && NoDup(layout.contents)
      requires k < |layout.contents| && layout.contents[k] == temp
      ensures prev == if k > 0 then layout.contents[k - 1] else null
      ensures next == if k + 1 < |layout.contents| then layout.contents[k + 1] else null
    {
      hide AndTree.Valid, SortedBy;
      var laynode := layout.FindData(temp, VnodeGetOffset, OffsetKey());
      layout.RefsCarry();
      var prevnode, nextnode;
      ghost var i, j;
      prevnode, i := layout.Previous(laynode);
      nextnode, j := layout.Next(laynode);
      prev := if prevnode != null then prevnode.data else null;
      next := if nextnode != null then nextnode.data else null;
    }

    // The beginning of free_vnode: the vnode is free, and in both trees. One that was free already
    // is twice in the tree of free vnodes then.
    method Release(node: VNode, ghost i: nat)
      requires Trees() && Indexed() && Tiled(Blocks(), pages)
      requires i < |layout.contents| && layout.contents[i] == node
      modifies freeNodes, layout.nil`parent, freeNodes.repr, node`isFree
      ensures Trees() && fresh(freeNodes.repr - old(freeNodes.repr)) && (Indexed() <==> !old(node.isFree))
      ensures layout.contents == old(layout.contents) && layout.repr == old(layout.repr)
      ensures node.isFree && Blocks() == old(Blocks())[i := old(Blocks()[i]).(free := true)]
    {
      hide Trees, Tiled, BySize, NoDup, Blocks;
      LayoutSorted();
      assert node.isFree <==> node in freeNodes.contents by {
        assert layout.contents[i] in layout.contents;
        assert node in freeNodes.contents <==> node in FreeSet();
      }
      SetFree(node, true, i);
      FreeInsert(node);
    }

    // An attempt to merge two neighbours, and what it leaves.
    method MergePair(a: VNode?, b: VNode?, ghost i: int) returns (r: VNode?)
      requires Trees() && Tiled(Blocks(), pages)
      requires Indexed() || !(a != null && b != null && a.isFree && b.isFree)
      requires a != null && b != null ==>
                 0 <= i && i + 1 < |layout.contents| && layout.contents[i] == a && layout.contents[i + 1] == b
      modifies layout, freeNodes, layout.nil`parent, layout.repr, freeNodes.repr
      modifies (if a == null then {} else {a})`size
      ensures Trees() && (Indexed() <==> old(Indexed())) && Tiled(Blocks(), pages)
      ensures layout.repr <= old(layout.repr) && fresh(freeNodes.repr - old(freeNodes.repr))
      ensures r == null <==> !(a != null && b != null && a.isFree && b.isFree)
      ensures r == null ==> layout.contents == old(layout.contents) && Blocks() == old(Blocks())
      ensures r != null ==> 0 <= i && i + 1 < |old(Blocks())| && Blocks() == Join(old(Blocks()), i)
      ensures r != null ==> i < |layout.contents| < |old(layout.contents)| && layout.contents[i] == r && r.isFree
      ensures forall v | v in layout.contents :: v in old(layout.contents)
    {
      hide Trees, Indexed, Tiled;
      ghost var bs := Blocks();
      r := TryMerge(a, b, i);
      if r != null {
        JoinTiles(bs, pages, i);
      }
    }

    // One round of the merge loop.
    method MergeStep(temp: VNode, ghost k: nat) returns (r: VNode?, ghost k': nat)
      requires Trees() && Tiled(Blocks(), pages)
      requires k < |layout.contents| && layout.contents[k] == temp && temp.isFree && (Indexed() || Alone(Blocks(), k))
      modifies layout, freeNodes, layout.nil`parent, layout.repr, freeNodes.repr, Elements(layout.contents)`size
      ensures Trees() && (Indexed() <==> old(Indexed())) && Tiled(Blocks(), pages)
      ensures layout.repr <= old(layout.repr) && fresh(freeNodes.repr - old(freeNodes.repr))
      ensures forall v | v in layout.contents :: v in old(layout.contents)
      ensures r == null ==> Blocks() == Coalesce(old(Blocks()), k)
      ensures r == null ==> layout.contents == old(layout.contents)
      ensures r != null ==> |layout.contents| < |old(layout.contents)| && Indexed()
      ensures r != null ==> k' < |layout.contents| && layout.contents[k'] == r && r.isFree
      ensures r != null ==> Coalesce(Blocks(), k') == Coalesce(old(Blocks()), k)
    {
      hide Trees, Indexed, Tiled, SortedBy, NoDup, Coalesce, Join, Blocks;
      LayoutSorted();
      var prev, next := Neighbours(temp, k);
      if k > 0 { BlockAt(k - 1); }
      if k + 1 < |layout.contents| { BlockAt(k + 1); }
      CoalesceStep(Blocks(), k);
      k' := k;
      r := MergePair(prev, temp, k - 1);
      if r != null {
        k' := k - 1;
      } else {
        r := MergePair(temp, next, k);
      }
    }

    // free_vnode. The region is sound afterwards if and only if the vnode was not free already.
    method FreeVnode(node: VNode, ghost i: nat)
      requires Valid() && i < |layout.contents| && layout.contents[i] == node
      modifies layout, freeNodes, layout.nil`parent, layout.repr, freeNodes.repr, Elements(layout.contents)
      ensures Trees() && Blocks() == Freed(old(Blocks()), i)
      ensures Valid() <==> !old(node.isFree)
    {
      hide Trees, Indexed, Tiled, Merged, Coalesce, Alone, Blocks;
      ghost var bs := Blocks();
      FreedKeeps(bs, pages, i);
      FreeTiles(bs, pages, i);
      BlockAt(i);
      if node.isFree { FreedAgain(bs, i); }
      Release(node, i);
      var temp: VNode? := node;
      ghost var k: nat := i;
      while temp != null
        invariant Trees() && (Indexed() <==> !old(node.isFree)) && Tiled(Blocks(), pages)
        invariant layout.repr <= old(layout.repr) && fresh(freeNodes.repr - old(freeNodes.repr))
        invariant forall v | v in layout.contents :: v in old(layout.contents)
        invariant temp != null ==> k < |layout.contents| && layout.contents[k] == temp && temp.isFree
        invariant temp != null ==> Indexed() || Alone(Blocks(), k)
        invariant temp != null ==> Coalesce(Blocks(), k) == Freed(bs, i)
        invariant temp == null ==> Blocks() == Freed(bs, i)
        decreases |layout.contents|, temp != null
      {
        assert Elements(layout.contents) <= old(Elements(layout.contents));
        temp, k := MergeStep(temp, k);
      }
    }

    // ----- The interface: byte sizes and addresses -----

    // c4rt_vaddr_alloc; None is the null pointer
    method VaddrAlloc(size: nat) returns (r: Option<nat>, ghost i: nat)
      requires Valid()
      modifies layout, freeNodes, layout.nil`parent, layout.repr, freeNodes.repr, Elements(layout.contents)
      ensures Trees() && Indexed() && (Valid() <==> r.None? || size > 0 || pages == 0)
      ensures r.None? ==> Blocks() == old(Blocks())
      ensures r.None? <==> NoFit(old(Blocks()), PagesFor(size))
      ensures size > 0 ==> (r.None? <==> forall a: nat :: !FreeRun(old(Blocks()), a, PagesFor(size)))
      ensures r.Some? ==> BestFit(old(Blocks()), PagesFor(size), i) && Blocks() == Carved(old(Blocks()), i, PagesFor(size))
      ensures r.Some? ==> r.value == base + old(Blocks())[i].offset * PAGE_SIZE
      ensures r.Some? && pages > 0 ==> base <= r.value < WORD && OffsetOf(r.value) == old(Blocks())[i].offset
    {
      hide Trees, Indexed, Tiled, Merged, FreeRun, Carved, OffsetOf, Blocks;
      ghost var bs := Blocks();
      var n := size / PAGE_SIZE + (if size % PAGE_SIZE != 0 then 1 else 0);
      PagesEnough(size);
      if size > 0 {
        RunFits(bs, pages, n);
      }
      var node;
      node, i := AllocVnode(n);
      if node == null {
        return None, i;
      }
      r := Some(base + node.offset * PAGE_SIZE);
      if pages > 0 {
        FitsInside(bs, i);
        AddressBack(node.offset, 0);
      }
    }

    lemma FitsInside(bs: seq<Block>, i: nat)
      requires Tiled(bs, pages) && i < |bs|
      ensures bs[i].offset + bs[i].size <= pages && (pages > 0 ==> bs[i].offset < pages)
    {
      if i + 1 < |bs| { AddressOrder(bs, pages, i, |bs| - 1); }
    }

    // The page an address is taken to point to; the subtraction wraps around.
    function OffsetOf(ptr: nat): nat {
      ((ptr - base) % WORD) / PAGE_SIZE
    }

    lemma AddressBack(o: nat, k: nat)
      requires o < pages && base + pages * PAGE_SIZE <= WORD && k < PAGE_SIZE
      ensures base + o * PAGE_SIZE + k < WORD && OffsetOf(base + o * PAGE_SIZE + k) == o
    {
      assert base + o * PAGE_SIZE + k - base == o * PAGE_SIZE + k;
    }

    // The vnode that starts at a page, if there is one.
    method Lookup(offset: nat) returns (r: VNode?, ghost i: nat)
      requires Valid()
      ensures r == null <==> forall j | 0 <= j < |Blocks()| :: Blocks()[j].offset != offset
      ensures r != null ==> i < |layout.contents| && layout.contents[i] == r && r.offset == offset
    {
      hide AndTree.Valid, Tiled, Merged, Indexed, SortedBy, NoDup;
      LayoutSorted();
      var node;
      ghost var steps;
      node, steps := layout.FindKey(offset, VnodeGetOffset, OffsetKey());
      ghost var vs := layout.contents;
      i := 0;
      if node == null {
        assert forall j | 0 <= j < |vs| :: vs[j] in vs;
        return null, i;
      }
      r := node.data;
      i :| 0 <= i < |vs| && vs[i] == r;
      assert Blocks()[i].offset == offset;
    }

    // c4rt_vaddr_free. The block must not be free already: the code does not check.
    method VaddrFree(ptr: nat) returns (ghost i: nat)
      requires Valid()
      modifies layout, freeNodes, layout.nil`parent, layout.repr, freeNodes.repr, Elements(layout.contents)
      ensures Trees()
      ensures var bs := old(Blocks());
              if exists j | 0 <= j < |bs| :: bs[j].offset == OffsetOf(ptr)
              then i < |bs| && bs[i].offset == OffsetOf(ptr) && Blocks() == Freed(bs, i) && (Valid() <==> !bs[i].free)
              else Valid() && Blocks() == bs
    {
      hide Trees, Indexed, Tiled, Merged, Freed;
      var node;
      node, i := Lookup(((ptr - base) % WORD) / PAGE_SIZE);
      if node == null {
        return;
      }
      BlockAt(i);
      FreeVnode(node, i);
    }

    // c4rt_vaddr_size
    method VaddrSize(ptr: nat) returns (bytes: nat, ghost i: nat)
      requires Valid()
      ensures if exists j | 0 <= j < |Blocks()| :: Blocks()[j].offset == OffsetOf(ptr)
              then i < |Blocks()| && Blocks()[i].offset == OffsetOf(ptr) && bytes == Blocks()[i].size * PAGE_SIZE
              else bytes == 0
    {
      hide Trees, Indexed, Tiled, Merged;
      var node;
      node, i := Lookup(((ptr - base) % WORD) / PAGE_SIZE);
      bytes := if node == null then 0 else VnodeGetSize(node) * PAGE_SIZE;
    }
  }
}
