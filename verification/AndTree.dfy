/** andtree.c: the balanced tree with parent pointers and a shared sentinel, as objects that
    are relinked in place. Ghost fields record the shape, and the memory image that the
    lemmas of NodeMemory talk about. */
module AndTrees {
  import opened Common
  import opened AATree
  import opened NodeMemory

  class AndNode<D> {
    var parent: AndNode?<D>
    var left: AndNode<D>
    var right: AndNode<D>
    var level: nat
    var data: D

    // The static sentinel. Its data is never read.
    constructor Sentinel(unused: D)
      ensures IsSentinel(this) && parent == null
    {
      parent, level, data := null, 0, unused;
      left, right := this, this;
    }

    // make_andnode
    constructor Make(nil: AndNode<D>, data: D)
      ensures parent == null && left == nil && right == nil && level == 1 && this.data == data
    {
      parent, level := null, 1;
      this.data := data;
      left, right := nil, nil;
    }
  }

  ghost predicate IsSentinel<D>(n: AndNode<D>)
    reads n`level, n`left, n`right
  {
    n.level == 0 && n.left == n && n.right == n
  }

  ghost function LinkOf<D>(p: AndNode?<D>): Link<AndNode<D>> {
    if p == null then Null else To(p)
  }

  ghost function CellOf<D>(n: AndNode<D>): Cell<AndNode<D>>
    reads n
  {
    Cell(LinkOf(n.parent), n.left, n.right, n.level)
  }

  ghost predicate SortedBy<D>(s: seq<D>, key: D -> int) {
    forall i, j | 0 <= i < j < |s| :: key(s[i]) <= key(s[j])
  }

  // How many data at the front of s have keys up to k.
  ghost function UpperBound<D>(s: seq<D>, key: D -> int, k: int): (n: nat)
    ensures n <= |s|
  {
    if s == [] || key(s[0]) > k then 0 else 1 + UpperBound(s[1..], key, k)
  }

  lemma {:induction false} UpperBoundIs<D>(s: seq<D>, key: D -> int, k: int, n: nat)
    requires n <= |s|
    requires forall i | 0 <= i < n :: key(s[i]) <= k
    requires n < |s| ==> key(s[n]) > k
    ensures UpperBound(s, key, k) == n
  {
    if n > 0 {
      UpperBoundIs(s[1..], key, k, n - 1);
    }
  }

  lemma SortedRemoved<D>(s: seq<D>, i: nat, key: D -> int)
    requires SortedBy(s, key) && i < |s|
    ensures SortedBy(Removed(s, i), key)
  {
  }

  // Elements before lo have keys up to k, elements from lo + len on have larger keys.
  ghost predicate Between<D>(s: seq<D>, key: D -> int, k: int, lo: nat, len: nat) {
    && lo + len <= |s|
    && (forall i | 0 <= i < lo :: key(s[i]) <= k)
    && (forall i | lo + len <= i < |s| :: key(s[i]) > k)
  }

  lemma BetweenNarrowed<D>(s: seq<D>, key: D -> int, k: int, lo: nat, len: nat, r: nat)
    requires SortedBy(s, key) && Between(s, key, k, lo, len) && lo <= r < lo + len
    ensures k < key(s[r]) ==> Between(s, key, k, lo, r - lo)
    ensures k >= key(s[r]) ==> Between(s, key, k, r + 1, lo + len - (r + 1))
  {
  }

  lemma NothingBetween<T>()
    ensures |InOrder<T>(Nil)| == 0
  {
  }

  lemma BetweenPlaces<D>(s: seq<D>, key: D -> int, d: D, lo: nat)
    requires SortedBy(s, key) && Between(s, key, key(d), lo, 0)
    ensures lo <= |s| && UpperBound(s, key, key(d)) == lo && SortedBy(Inserted(s, lo, d), key)
  {
    UpperBoundIs(s, key, key(d), lo);
    var r := Inserted(s, lo, d);
    hide UpperBound;
    forall i, j | 0 <= i < j < |r|
      ensures key(r[i]) <= key(r[j])
    {
      InsertedAt(s, lo, d, i);
      InsertedAt(s, lo, d, j);
    }
  }

  lemma InsertedAt<D>(s: seq<D>, lo: nat, d: D, i: nat)
    requires lo <= |s| && i <= |s|
    ensures Inserted(s, lo, d)[i] == if i < lo then s[i] else if i == lo then d else s[i - 1]
  {
  }

  class AndTree<D(==)> {
    const nil: AndNode<D>
    var root: AndNode<D>
    var nodes: nat
    ghost var shape: Tree<AndNode<D>>
    ghost var contents: seq<D>
    ghost var repr: set<AndNode<D>>
    ghost var mem: Memory<AndNode<D>>

    // andtree_init
    constructor (nil: AndNode<D>)
      requires IsSentinel(nil)
      ensures this.nil == nil && Valid() && contents == [] && repr == {}
    {
      this.nil, root, nodes := nil, nil, 0;
      shape, contents, repr, mem := Nil, [], {}, map[];
    }

    ghost predicate Valid()
      reads this, nil`level, nil`left, nil`right, repr
    {
      && Agrees() && At(mem, Top, shape, root, nil) && AA(shape)
      && nodes == |InOrder(shape)|
      && Carries(InOrder(shape), contents)
    }

    lemma NilApart()
      requires Valid()
      ensures nil !in repr
    {
    }

    // The nodes in order.
    ghost function Refs(): seq<AndNode<D>>
      reads `shape
    {
      InOrder(shape)
    }

    // The nodes carry these data, in this order.
    ghost predicate Carries(refs: seq<AndNode<D>>, data: seq<D>)
      reads `repr, repr`data
    {
      |refs| == |data| && forall i | 0 <= i < |refs| :: refs[i] in repr && refs[i].data == data[i]
    }

    // The ghost memory is what the node fields hold.
    ghost predicate Agrees()
      reads `repr, `mem, nil`level, nil`left, nil`right, repr
    {
      && mem.Keys == repr
      && IsSentinel(nil) && nil !in mem
      && forall n | n in mem :: CellOf(n) == mem[n]
    }

    lemma Field(x: AndNode<D>)
      requires Agrees()
      ensures mem.Keys == repr && nil !in repr
      ensures x in mem ==> CellOf(x) == mem[x]
      ensures x == nil ==> x.level == 0 && x.left == nil && x.right == nil
    {
    }

    // ----- Pointer writes, each keeping the ghost memory in step -----

    method SetLeft(x: AndNode<D>, v: AndNode<D>)
      requires Agrees() && x in repr
      modifies this`mem, x`left
      ensures Agrees() && mem == WithLeft(old(mem), x, v)
    {
      x.left := v;
      mem := WithLeft(mem, x, v);
    }

    method SetRight(x: AndNode<D>, v: AndNode<D>)
      requires Agrees() && x in repr
      modifies this`mem, x`right
      ensures Agrees() && mem == WithRight(old(mem), x, v)
    {
      x.right := v;
      mem := WithRight(mem, x, v);
    }

    // The sentinel may be given a parent, which nobody reads.
    method SetParent(x: AndNode<D>, p: AndNode?<D>)
      requires Agrees() && (x in repr || x == nil)
      modifies this`mem, x`parent
      ensures Agrees() && mem == WithParent(old(mem), x, LinkOf(p))
    {
      x.parent := p;
      mem := WithParent(mem, x, LinkOf(p));
    }

    method SetLevel(x: AndNode<D>, level: nat)
      requires Agrees() && x in repr
      modifies this`mem, x`level
      ensures Agrees() && mem == WithLevel(old(mem), x, level)
    {
      x.level := level;
      mem := WithLevel(mem, x, level);
    }

    method SetData(x: AndNode<D>, data: D)
      requires Agrees() && x in repr
      modifies x`data
      ensures Agrees() && x.data == data
    {
      x.data := data;
    }

    // replace_in_parent, for a node other than the sentinel
    method ReplaceInParent(node: AndNode<D>, value: AndNode<D>)
      requires Agrees() && node in mem && (value in mem || value == nil)
      requires mem[node].parent.To? ==> mem[node].parent.node in mem
      modifies this`mem, repr`left, repr`right, value`parent
      ensures Agrees() && mem == Replaced(old(mem), node, value)
    {
      hide Agrees;
      Field(node);
      if node.parent != null {
        Field(node.parent);
        if node.parent.left != node {
          SetRight(node.parent, value);
        } else {
          SetLeft(node.parent, value);
        }
      }
      Field(value);
      if value.level != 0 {
        Field(node);
        SetParent(value, node.parent);
      }
    }

    // rotate(tree, node, RIGHT)
    method RotateRight(node: AndNode<D>) returns (temp: AndNode<D>)
      requires Agrees() && CanRotateRight(mem, node, nil)
      modifies this`root, this`mem, nil`parent, repr`left, repr`right, repr`parent
      ensures Agrees() && mem == RightRotation(old(mem), node, nil)
      ensures temp == old(node.left) && root == if node == old(root) then temp else old(root)
    {
      hide Agrees, CanRotateRight, RightRotation;
      temp := RelinkRight(node);
      if node == root {
        root := temp;
      }
    }

    // The pointer changes in a rotation to the right
    method RelinkRight(node: AndNode<D>) returns (temp: AndNode<D>)
      requires Agrees() && CanRotateRight(mem, node, nil)
      modifies this`mem, nil`parent, repr`left, repr`right, repr`parent
      ensures Agrees() && mem == RightRotation(old(mem), node, nil) && temp == old(node.left)
    {
      hide Agrees, WithLeft, WithRight, Swung, CanRotateRight;
      RightRotationReads(mem, node, nil);
      Field(node);
      temp := node.left;
      Field(temp);
      SetLeft(node, temp.right);
      SetRight(temp, node);
      Field(node);
      Swing(node, temp, node.left);
    }

    // rotate(tree, node, LEFT)
    method RotateLeft(node: AndNode<D>) returns (temp: AndNode<D>)
      requires Agrees() && CanRotateLeft(mem, node, nil)
      modifies this`root, this`mem, nil`parent, repr`left, repr`right, repr`parent
      ensures Agrees() && mem == LeftRotation(old(mem), node, nil)
      ensures temp == old(node.right) && root == if node == old(root) then temp else old(root)
    {
      hide Agrees, CanRotateLeft, LeftRotation;
      temp := RelinkLeft(node);
      if node == root {
        root := temp;
      }
    }

    // The pointer changes in a rotation to the left
    method RelinkLeft(node: AndNode<D>) returns (temp: AndNode<D>)
      requires Agrees() && CanRotateLeft(mem, node, nil)
      modifies this`mem, nil`parent, repr`left, repr`right, repr`parent
      ensures Agrees() && mem == LeftRotation(old(mem), node, nil) && temp == old(node.right)
    {
      hide Agrees, WithLeft, WithRight, Swung, CanRotateLeft;
      LeftRotationReads(mem, node, nil);
      Field(node);
      temp := node.right;
      Field(temp);
      SetRight(node, temp.left);
      SetLeft(temp, node);
      Field(node);
      Swing(node, temp, node.right);
    }

    // The last pointer changes of a rotation, which are the same in both directions
    method Swing(node: AndNode<D>, temp: AndNode<D>, mid: AndNode<D>)
      requires Agrees() && node in mem && temp in mem && (mid == nil || mid in mem) && mid != node
      requires mem[node].parent.To? ==> mem[node].parent.node in mem
      modifies this`mem, nil`parent, repr`left, repr`right, repr`parent
      ensures Agrees() && mem == Swung(old(mem), node, temp, mid)
    {
      hide Agrees, Replaced;
      Field(node);
      SetParent(mid, node);
      ReplaceInParent(node, temp);
      SetParent(node, temp);
    }

    // ----- Rebalancing at a subtree, wherever it hangs -----

    // The fields around the focus are as the shape says.
    ghost predicate Seen(c: Path<AndNode<D>>, t: Tree<AndNode<D>>)
      reads nil, Ref(t, nil), Ref(Left(t), nil), Ref(Right(t), nil), Ref(Right(Right(t)), nil)
    {
      var n := Ref(t, nil);
      && n.level == Level(t) && n.left == Ref(Left(t), nil) && n.right == Ref(Right(t), nil)
      && n.left.level == Level(Left(t)) && n.right.level == Level(Right(t))
      && n.right.right == Ref(Right(Right(t)), nil) && n.right.right.level == Level(Right(Right(t)))
      && (t.Node? ==> n.level > 0 && LinkOf(n.parent) == ParentOf(c))
      && (Left(t).Node? ==> n.left.level > 0) && (Right(t).Node? ==> n.right.level > 0)
    }

    lemma See(c: Path<AndNode<D>>, t: Tree<AndNode<D>>)
      requires Agrees() && At(mem, c, t, root, nil)
      ensures Seen(c, t) && nil !in repr && mem.Keys == repr
      ensures t.Node? ==> t.item in repr
      ensures c.Top? ==> root == Ref(t, nil)
      ensures !c.Top? ==> c.item in repr
    {
      Field(nil);
      if t.Node? {
        FocusCell(mem, c, t, root, nil);
        DescendLeft(mem, c, t, root, nil);
        DescendRight(mem, c, t, root, nil);
        var cl, cr := LeftOf(t.level, t.item, t.right, c), RightOf(t.left, t.level, t.item, c);
        FocusCell(mem, cl, t.left, root, nil);
        FocusCell(mem, cr, t.right, root, nil);
        if t.right.Node? {
          DescendRight(mem, cr, t.right, root, nil);
          FocusCell(mem, RightOf(t.right.left, t.right.level, t.right.item, cr), t.right.right, root, nil);
        }
      }
    }

    // Rotations at the focus
    method TurnRight(node: AndNode<D>, ghost c: Path<AndNode<D>>, ghost t: Tree<AndNode<D>>) returns (ret: AndNode<D>)
      requires Agrees() && At(mem, c, t, root, nil) && t.Node? && t.left.Node? && node == t.item
      modifies this`root, this`mem, nil`parent, repr`left, repr`right, repr`parent
      ensures Agrees() && At(mem, c, RightRotated(t), root, nil) && ret == t.left.item
    {
      hide Agrees, At, CanRotateRight, RightRotation;
      See(c, t);
      RotatedRight(mem, c, t, root, nil);
      ret := RotateRight(node);
    }

    method TurnLeft(node: AndNode<D>, ghost c: Path<AndNode<D>>, ghost t: Tree<AndNode<D>>) returns (ret: AndNode<D>)
      requires Agrees() && At(mem, c, t, root, nil) && t.Node? && t.right.Node? && node == t.item
      modifies this`root, this`mem, nil`parent, repr`left, repr`right, repr`parent
      ensures Agrees() && At(mem, c, LeftRotated(t), root, nil) && ret == t.right.item
    {
      hide Agrees, At, CanRotateLeft, LeftRotation;
      See(c, t);
      RotatedLeft(mem, c, t, root, nil);
      ret := RotateLeft(node);
    }

    // ret->level += 1
    method Raise(node: AndNode<D>, ghost c: Path<AndNode<D>>, ghost t: Tree<AndNode<D>>)
      requires Agrees() && At(mem, c, t, root, nil) && t.Node? && node == t.item
      modifies this`mem, repr`level
      ensures Agrees() && At(mem, c, t.(level := t.level + 1), root, nil)
    {
      hide Agrees, At, WithLevel;
      See(c, t);
      Releveled(mem, c, t, root, nil, t.level + 1);
      SetLevel(node, node.level + 1);
    }

    method SkewAt(node: AndNode<D>, ghost c: Path<AndNode<D>>, ghost t: Tree<AndNode<D>>) returns (ret: AndNode<D>)
      requires Agrees() && At(mem, c, t, root, nil) && node == Ref(t, nil)
      modifies this`root, this`mem, nil`parent, repr`left, repr`right, repr`parent
      ensures Agrees() && At(mem, c, Skew(t), root, nil) && ret == Ref(Skew(t), nil)
      decreases Left(t)
    {
      hide Agrees, At;
      See(c, t);
      ret := node;
      if node.level == 0 {
        return;
      }
      if node.left.level == node.level {
        ret := TurnRight(node, c, t);
        ghost var s := RightRotated(t);
        See(c, s);
        DescendRight(mem, c, s, root, nil);
        ghost var cr := RightOf(s.left, s.level, s.item, c);
        ghost var rest := SkewAt(ret.right, cr, s.right);
        Ascend(mem, cr, Skew(s.right), root, nil);
      }
    }

    method SplitAt(node: AndNode<D>, ghost c: Path<AndNode<D>>, ghost t: Tree<AndNode<D>>) returns (ret: AndNode<D>)
      requires Agrees() && At(mem, c, t, root, nil) && node == Ref(t, nil)
      modifies this`root, this`mem, nil`parent, repr`left, repr`right, repr`parent, repr`level
      ensures Agrees() && At(mem, c, Split(t), root, nil) && ret == Ref(Split(t), nil)
      decreases t
    {
      hide Agrees, At;
      See(c, t);
      ret := node;
      if node.level == 0 {
        return;
      }
      if node.level == node.right.right.level {
        ret := TurnLeft(node, c, t);
        ghost var s := LeftRotated(t);
        Raise(ret, c, s);
        s := s.(level := s.level + 1);
        See(c, s);
        DescendRight(mem, c, s, root, nil);
        ghost var cr := RightOf(s.left, s.level, s.item, c);
        ghost var rest := SplitAt(ret.right, cr, s.right);
        Ascend(mem, cr, Split(s.right), root, nil);
      }
    }

    // ----- Insertion -----

    // A tree's data are looked up by keys that get_key reads from memory; key holds what it
    // returns while an operation runs.
    ghost predicate Sorted(key: D -> int)
      reads `contents
    {
      SortedBy(contents, key)
    }

    // Data before the subtree t at c have keys up to k, data after it have larger keys.
    ghost predicate Bracketed(c: Path<AndNode<D>>, t: Tree<AndNode<D>>, key: D -> int, k: int)
      reads `shape, `contents
    {
      Plug(c, t) == shape && Between(contents, key, k, |Before(c)|, |InOrder(t)|)
    }

    lemma BracketedAll(key: D -> int, k: int)
      requires Carries(InOrder(shape), contents)
      ensures Bracketed(Top, shape, key, k)
    {
    }

    lemma Narrowed(c: Path<AndNode<D>>, t: Tree<AndNode<D>>, key: D -> int, k: int)
      requires Bracketed(c, t, key, k) && t.Node? && Sorted(key) && Carries(InOrder(shape), contents)
      ensures t.item in repr && t.item.data in contents
      ensures k < key(t.item.data) ==> Bracketed(LeftOf(t.level, t.item, t.right, c), t.left, key, k)
      ensures k >= key(t.item.data) ==> Bracketed(RightOf(t.left, t.level, t.item, c), t.right, key, k)
    {
      hide Between, SortedBy;
      RankInOrder(c, t);
      assert t.item.data == contents[Rank(c, t)];
      BetweenNarrowed(contents, key, k, |Before(c)|, |InOrder(t)|, Rank(c, t));
    }

    // A new leaf becomes one of the tree's nodes, not yet linked to the others.
    ghost method Enroll(node: AndNode<D>)
      requires Agrees() && node !in repr && node != nil && CellOf(node) == Cell(Null, nil, nil, 1)
      modifies this`repr, this`mem
      ensures Agrees() && repr == old(repr) + {node} && mem == old(mem)[node := Cell(Null, nil, nil, 1)]
    {
      mem, repr := mem[node := CellOf(node)], repr + {node};
    }

    lemma Placed(c: Path<AndNode<D>>, key: D -> int, data: D)
      requires Bracketed(c, Nil, key, key(data)) && Sorted(key)
      ensures |Before(c)| <= |contents| && UpperBound(contents, key, key(data)) == |Before(c)|
      ensures SortedBy(Inserted(contents, |Before(c)|, data), key)
    {
      hide Between, SortedBy, Plug, InOrder;
      NothingBetween<AndNode<D>>();
      BetweenPlaces(contents, key, data, |Before(c)|);
    }

    lemma CarriesInserted(refs: seq<AndNode<D>>, data: seq<D>, i: nat, node: AndNode<D>)
      requires Carries(refs, data) && i <= |refs| && node in repr
      ensures Carries(Inserted(refs, i, node), Inserted(data, i, node.data))
    {
    }

    // The new leaf is hung below temp, where the search for its place ended.
    method Attach(temp: AndNode<D>, toRight: bool, node: AndNode<D>, ghost c: Path<AndNode<D>>)
      requires Agrees() && At(mem, c, Nil, root, nil) && !c.Top? && temp == c.item && toRight == c.RightOf?
      requires node !in repr && node != nil && CellOf(node) == Cell(Null, nil, nil, 1)
      modifies this`repr, this`mem, repr`left, repr`right, node`parent
      ensures Agrees() && repr == old(repr) + {node} && At(mem, c, Node(Nil, 1, node, Nil), root, nil)
    {
      hide Agrees, At, WithLeft, WithRight, WithParent;
      See(c, Nil);
      GraftedAt(mem, c, node, root, nil);
      Enroll(node);
      Field(temp);
      if toRight {
        SetRight(temp, node);
      } else {
        SetLeft(temp, node);
      }
      SetParent(node, temp);
    }

    // The search in andtree_bin_insert, for a tree that is not empty: the node below which there
    // is room on the side where the data belong.
    method FindPlace(data: D, getKey: D ~> int, ghost key: D -> int)
      returns (temp: AndNode<D>, toRight: bool, ghost c: Path<AndNode<D>>)
      requires Agrees() && At(mem, Top, shape, root, nil) && shape.Node? && Carries(InOrder(shape), contents) && Sorted(key)
      requires forall d | d in contents || d == data :: getKey.requires(d) && getKey(d) == key(d)
      ensures At(mem, c, Nil, root, nil) && Bracketed(c, Nil, key, key(data))
      ensures !c.Top? && temp == c.item && toRight == c.RightOf?
    {
      hide Agrees, At, Bracketed, Sorted, Carries, Seen;
      ghost var t, k := shape, key(data);
      c := Top;
      Fields(c, t);
      BracketedAll(key, k);
      temp, toRight := root, false;
      while true
        invariant temp == Ref(t, nil) && t.Node? && At(mem, c, t, root, nil) && Bracketed(c, t, key, k)
        decreases t
      {
        Fields(c, t);
        Narrowed(c, t, key, k);
        toRight := !(getKey(data) - getKey(temp.data) < 0);
        var next := if toRight then temp.right else temp.left;
        if toRight {
          DescendRight(mem, c, t, root, nil);
          c, t := RightOf(t.left, t.level, t.item, c), t.right;
        } else {
          DescendLeft(mem, c, t, root, nil);
          c, t := LeftOf(t.level, t.item, t.right, c), t.left;
        }
        Fields(c, t);
        if next.level == 0 {
          return;
        }
        temp := next;
      }
    }

    // What See says of one node
    lemma Fields(c: Path<AndNode<D>>, t: Tree<AndNode<D>>)
      requires Agrees() && At(mem, c, t, root, nil)
      ensures var n := Ref(t, nil);
              n.level == Level(t) && n.left == Ref(Left(t), nil) && n.right == Ref(Right(t), nil) && (t.Node? <==> n.level > 0)
      ensures t.Node? ==> t.item in repr
      ensures c.Top? ==> root == Ref(t, nil)
    {
      See(c, t);
      hide At, Agrees;
    }

    // andtree_bin_insert
    method BinInsert(node: AndNode<D>, getKey: D ~> int, ghost key: D -> int) returns (ghost c: Path<AndNode<D>>)
      requires Agrees() && At(mem, Top, shape, root, nil) && Carries(InOrder(shape), contents) && Sorted(key)
      requires forall d | d in contents || d == node.data :: getKey.requires(d) && getKey(d) == key(d)
      requires node !in repr && node != nil && CellOf(node) == Cell(Null, nil, nil, 1)
      modifies this`root, this`repr, this`mem, repr`left, repr`right, node`parent
      ensures Agrees() && repr == old(repr) + {node}
      ensures At(mem, c, Node(Nil, 1, node, Nil), root, nil) && Bracketed(c, Nil, key, key(node.data))
    {
      hide Agrees, At, Bracketed, Sorted;
      ghost var t, k := shape, key(node.data);
      c := Top;
      See(c, t);
      BracketedAll(key, k);
      if root.level == 0 {
        GraftedAt(mem, c, node, root, nil);
        root := node;
        Enroll(node);
        return;
      }
      var temp, toRight;
      temp, toRight, c := FindPlace(node.data, getKey, key);
      Attach(temp, toRight, node, c);
    }

    // andtree_insert_repair, from the node that has just been linked in
    method InsertRepair(node: AndNode<D>, ghost c0: Path<AndNode<D>>, ghost t0: Tree<AndNode<D>>)
      requires Agrees() && At(mem, c0, t0, root, nil) && t0.Node? && node == t0.item
      modifies this`root, this`mem, nil`parent, repr`left, repr`right, repr`parent, repr`level
      ensures Agrees() && At(mem, Top, InsertClimb(c0, t0), root, nil)
    {
      hide Agrees, At;
      var temp: AndNode?<D> := node;
      ghost var c, t := c0, t0;
      while temp != null
        invariant Agrees()
        invariant temp != null ==> temp == Ref(t, nil) && t.Node? && At(mem, c, t, root, nil) && InsertClimb(c, t) == InsertClimb(c0, t0)
        invariant temp == null ==> c.Top? && At(mem, Top, InsertClimb(c0, t0), root, nil)
        decreases c, temp != null
      {
        var up := SkewAt(temp, c, t);
        t := Skew(t);
        up := SplitAt(up, c, t);
        t := Split(t);
        See(c, t);
        temp := up.parent;
        if !c.Top? {
          Ascend(mem, c, t, root, nil);
          c, t := c.up, Rejoin(c, t);
        }
      }
    }

    // andtree_insert
    method Insert(data: D, getKey: D ~> int, ghost key: D -> int) returns (node: AndNode<D>)
      requires Valid() && Sorted(key)
      requires forall d | d in contents || d == data :: getKey.requires(d) && getKey(d) == key(d)
      modifies this, nil`parent, repr`left, repr`right, repr`parent, repr`level
      ensures Valid() && Sorted(key) && fresh(node) && repr == old(repr) + {node}
      ensures var i := UpperBound(old(contents), key, key(data));
              && contents == Inserted(old(contents), i, data)
              && Refs() == Inserted(old(Refs()), i, node)
    {
      hide Agrees, At, SortedBy, Inserted, InsertClimb, AA, InOrder, Plug, Before, After, UpperBound;
      node := new AndNode<D>.Make(nil, data);
      ghost var c := BinInsert(node, getKey, key);
      ghost var leaf := Node(Nil, 1, node, Nil);
      InsertRepair(node, c, leaf);
      nodes := nodes + 1;
      LeafInserted(c, node);
      ghost var i := |Before(c)|;
      Placed(c, key, data);
      CarriesInserted(InOrder(shape), contents, i, node);
      shape, contents := InsertClimb(c, leaf), Inserted(contents, i, data);
    }

    // ----- Removal -----

    ghost function FocusHere(node: AndNode<D>): (r: (Path<AndNode<D>>, Tree<AndNode<D>>))
      requires Valid() && node in repr
      reads this, nil`level, nil`left, nil`right, repr
      ensures At(mem, r.0, r.1, root, nil) && Plug(r.0, r.1) == shape && r.1.Node? && r.1.item == node
      ensures AA(r.1)
    {
      FocusAt(mem, Top, shape, node, root, nil);
      var r := FocusOn(Top, shape, node);
      PlugAA(r.0, r.1);
      r
    }

    // find_max_node
    method FindMax(start: AndNode<D>, ghost c0: Path<AndNode<D>>, ghost t0: Tree<AndNode<D>>)
      returns (r: AndNode?<D>, ghost c: Path<AndNode<D>>, ghost t: Tree<AndNode<D>>)
      requires Agrees() && At(mem, c0, t0, root, nil) && start == Ref(t0, nil)
      ensures r == null <==> t0.Nil?
      ensures At(mem, c, t, root, nil) && Plug(c, t) == Plug(c0, t0)
      ensures t0.Nil? ==> c == c0 && t == t0
      ensures t0.Node? ==> t.Node? && r == t.item && t.right.Nil? && Rank(c, t) + 1 == |Before(c0)| + |InOrder(t0)|
    {
      hide Agrees, At;
      c, t := c0, t0;
      See(c, t);
      if start.level == 0 {
        return null, c, t;
      }
      var node := start;
      while node.right.level != 0
        invariant node == Ref(t, nil) && t.Node? && At(mem, c, t, root, nil) && Seen(c, t)
        invariant Plug(c, t) == Plug(c0, t0) && |Before(c)| + |InOrder(t)| == |Before(c0)| + |InOrder(t0)|
        decreases t
      {
        DescendRight(mem, c, t, root, nil);
        c, t := RightOf(t.left, t.level, t.item, c), t.right;
        See(c, t);
        node := node.right;
      }
      r := node;
    }

    // find_min_node
    method FindMin(start: AndNode<D>, ghost c0: Path<AndNode<D>>, ghost t0: Tree<AndNode<D>>)
      returns (r: AndNode?<D>, ghost c: Path<AndNode<D>>, ghost t: Tree<AndNode<D>>)
      requires Agrees() && At(mem, c0, t0, root, nil) && start == Ref(t0, nil)
      ensures r == null <==> t0.Nil?
      ensures At(mem, c, t, root, nil) && Plug(c, t) == Plug(c0, t0)
      ensures t0.Nil? ==> c == c0 && t == t0
      ensures t0.Node? ==> t.Node? && r == t.item && t.left.Nil? && Rank(c, t) == |Before(c0)|
      ensures t0.Node? && t0.left.Nil? ==> c == c0 && t == t0
    {
      hide Agrees, At;
      c, t := c0, t0;
      See(c, t);
      if start.level == 0 {
        return null, c, t;
      }
      var node := start;
      while node.left.level != 0
        invariant node == Ref(t, nil) && t.Node? && At(mem, c, t, root, nil) && Seen(c, t)
        invariant Plug(c, t) == Plug(c0, t0) && |Before(c)| == |Before(c0)|
        invariant t0.left.Nil? ==> c == c0 && t == t0
        decreases t
      {
        DescendLeft(mem, c, t, root, nil);
        c, t := LeftOf(t.level, t.item, t.right, c), t.left;
        See(c, t);
        node := node.left;
      }
      r := node;
    }

    // A node that is freed is no longer one of the tree's nodes.
    ghost method Dismiss(node: AndNode<D>)
      requires Agrees()
      modifies this`repr, this`mem
      ensures Agrees() && repr == old(repr) - {node} && mem == old(mem) - {node}
    {
      mem, repr := mem - {node}, repr - {node};
    }

    // do_remove_node, for a node without children
    method DoRemoveNode(node: AndNode<D>, replacement: AndNode<D>, ghost c: Path<AndNode<D>>, ghost leaf: Tree<AndNode<D>>)
      requires Agrees() && At(mem, c, leaf, root, nil) && leaf.Node? && leaf.left.Nil? && leaf.right.Nil?
      requires node == leaf.item && replacement == nil && nodes > 0
      modifies this`root, this`repr, this`mem, this`nodes, repr`left, repr`right, nil`parent
      ensures Agrees() && At(mem, c, Nil, root, nil)
      ensures repr == old(repr) - {node} && nodes == old(nodes) - 1
    {
      hide Agrees, At, Replaced;
      See(c, leaf);
      PrunedAt(mem, c, leaf, root, nil);
      if node == root {
        root := replacement;
      }
      ReplaceInParent(node, replacement);
      Dismiss(node);
      nodes := nodes - 1;
    }

    // One round of the repair loop.
    // The right child comes down to the node's own level.
    method ClampRight(node: AndNode<D>, ghost c: Path<AndNode<D>>, ghost t: Tree<AndNode<D>>)
      requires Agrees() && At(mem, c, t, root, nil) && t.Node? && t.right.Node? && node == t.item
      modifies this`mem, repr`level
      ensures Agrees() && At(mem, c, t.(right := t.right.(level := t.level)), root, nil)
    {
      hide Agrees, At, WithLevel;
      See(c, t);
      DescendRight(mem, c, t, root, nil);
      ghost var cr := RightOf(t.left, t.level, t.item, c);
      Releveled(mem, cr, t.right, root, nil, t.level);
      SetLevel(node.right, node.level);
      Ascend(mem, cr, t.right.(level := t.level), root, nil);
    }

    method RemoveStepAt(node: AndNode<D>, ghost c: Path<AndNode<D>>, ghost t: Tree<AndNode<D>>) returns (repair: AndNode<D>)
      requires Agrees() && At(mem, c, t, root, nil) && t.Node? && node == t.item
      modifies this`root, this`mem, nil`parent, repr`left, repr`right, repr`parent, repr`level
      ensures Agrees() && At(mem, c, RemoveStep(t), root, nil) && repair == Ref(RemoveStep(t), nil)
    {
      hide Agrees, At, Skew, Split, WithLevel;
      repair := node;
      See(c, t);
      if repair.left.level < repair.level - 1 || repair.right.level < repair.level - 1 {
        Releveled(mem, c, t, root, nil, t.level - 1);
        SetLevel(repair, repair.level - 1);
        ghost var s := t.(level := t.level - 1);
        See(c, s);
        if repair.right.level > repair.level {
          ClampRight(repair, c, s);
          s := s.(right := s.right.(level := s.level));
        }
        assert s == Lowered(t);
        repair := Rebuild(repair, c, s);
      }
    }

    // Skew, split, split the left child, skew again.
    method Rebuild(node: AndNode<D>, ghost c: Path<AndNode<D>>, ghost low: Tree<AndNode<D>>) returns (repair: AndNode<D>)
      requires Agrees() && At(mem, c, low, root, nil) && low.Node? && node == low.item
      modifies this`root, this`mem, nil`parent, repr`left, repr`right, repr`parent, repr`level
      ensures Agrees() && var s := Split(Skew(low));
                       s.Node? && var s' := Skew(s.(left := Split(s.left)));
                               At(mem, c, s', root, nil) && repair == Ref(s', nil)
    {
      hide Agrees, At, Skew, Split;
      StepsKeepNode(low);
      StepsKeepNode(Skew(low));
      repair := SkewAt(node, c, low);
      repair := SplitAt(repair, c, Skew(low));
      ghost var s := Split(Skew(low));
      See(c, s);
      DescendLeft(mem, c, s, root, nil);
      ghost var cl := LeftOf(s.level, s.item, s.right, c);
      ghost var rest := SplitAt(repair.left, cl, s.left);
      Ascend(mem, cl, Split(s.left), root, nil);
      repair := SkewAt(repair, c, s.(left := Split(s.left)));
    }

    // The loop of andtree_remove_repair, from the parent of the place that has become empty.
    method RemoveRepair(parent: AndNode?<D>, ghost c0: Path<AndNode<D>>)
      requires Agrees() && At(mem, c0, Nil, root, nil) && LinkOf(parent) == ParentOf(c0)
      modifies this`root, this`mem, nil`parent, repr`left, repr`right, repr`parent, repr`level
      ensures Agrees() && At(mem, Top, RemoveClimb(c0, Nil), root, nil)
    {
      hide Agrees, At;
      var repair := parent;
      ghost var c, t := c0, Tree<AndNode<D>>.Nil;
      See(c, t);
      while repair != null && repair.level != 0
        invariant Agrees() && At(mem, c, t, root, nil) && RemoveClimb(c, t) == RemoveClimb(c0, Nil)
        invariant LinkOf(repair) == ParentOf(c)
        decreases c
      {
        hide RemoveStep;
        Ascend(mem, c, t, root, nil);
        c, t := c.up, Rejoin(c, t);
        repair := RemoveStepAt(repair, c, t);
        StepsKeepNode(t);
        t := RemoveStep(t);
        See(c, t);
        repair := repair.parent;
      }
      if !c.Top? {
        Ascend(mem, c, t, root, nil);
        Field(c.item);
      }
    }

    // Node i has taken over the data of the node at j, which is gone.
    ghost predicate Handed(refs: seq<AndNode<D>>, data: seq<D>, i: nat, j: nat)
      reads `repr, repr`data
    {
      && |refs| == |data| && i < |refs| && j < |refs| && (j == i || j + 1 == i || j == i + 1)
      && (forall k | 0 <= k < |refs| && k != j :: refs[k] in repr && refs[k].data == data[if k == i then j else k])
    }

    lemma CarriesRemoved(refs: seq<AndNode<D>>, data: seq<D>, i: nat, j: nat)
      requires Handed(refs, data, i, j)
      ensures Carries(Removed(refs, j), Removed(data, i))
    {
    }

    lemma RefsDistinct()
      requires Agrees() && At(mem, Top, shape, root, nil)
      ensures forall x :: x in Refs() <==> x in repr
      ensures forall i, j | 0 <= i < j < |Refs()| :: Refs()[i] != Refs()[j]
    {
      InOrderItems(shape);
      InOrderDistinct(shape);
    }

    // The node that will be taken out in place of node: null stands for node itself.
    method FindVictim(node: AndNode<D>, ghost c: Path<AndNode<D>>, ghost t: Tree<AndNode<D>>)
      returns (successor: AndNode?<D>, ghost cv: Path<AndNode<D>>, ghost v: Tree<AndNode<D>>)
      requires Agrees() && At(mem, c, t, root, nil) && t.Node? && node == t.item && AA(Plug(c, t))
      ensures At(mem, cv, v, root, nil) && Plug(cv, v) == Plug(c, t)
      ensures v.Node? && v.left.Nil? && v.right.Nil? && |Before(cv)| == VictimRank(c, t)
      ensures v.item == if successor == null then node else successor
      ensures successor == null ==> VictimRank(c, t) == Rank(c, t)
    {
      hide Agrees, At, AA;
      See(c, t);
      PlugAA(c, t);
      ThinEnds(t);
      DescendLeft(mem, c, t, root, nil);
      DescendRight(mem, c, t, root, nil);
      successor, cv, v := FindMax(node.left, LeftOf(t.level, t.item, t.right, c), t.left);
      if successor == null {
        successor, cv, v := FindMin(node.right, RightOf(t.left, t.level, t.item, c), t.right);
        if successor == null {
          cv, v := c, t;
        }
      } else {
        PlugAA(cv, v);
        ThinEnds(v);
      }
    }

    // The data move and the unlinking of andtree_remove_repair.
    method TakeOut(node: AndNode<D>, successor: AndNode?<D>, ghost cv: Path<AndNode<D>>, ghost v: Tree<AndNode<D>>)
      requires Agrees() && At(mem, cv, v, root, nil) && v.Node? && v.left.Nil? && v.right.Nil?
      requires v.item == if successor == null then node else successor
      requires nodes > 0 && node in repr
      modifies this`root, this`repr, this`mem, this`nodes, repr`left, repr`right, nil`parent, node`data
      ensures Agrees() && At(mem, cv, Nil, root, nil)
      ensures repr == old(repr) - {v.item} && nodes == old(nodes) - 1
      ensures node.data == if successor == null then old(node.data) else old(successor.data)
    {
      hide Agrees, At;
      See(cv, v);
      if successor != null {
        SetData(node, successor.data);
        DoRemoveNode(successor, if successor.left.level == 0 then successor.right else successor.left, cv, v);
      } else {
        DoRemoveNode(node, nil, cv, v);
      }
    }

    lemma DataAt(node: AndNode<D>)
      requires Valid() && node in repr
      ensures |Refs()| == |contents| && forall i | 0 <= i < |Refs()| && Refs()[i] == node :: contents[i] == node.data
    {
    }

    lemma RefsCarry()
      requires Valid()
      ensures |Refs()| == |contents| && forall i | 0 <= i < |Refs()| :: Refs()[i] in repr && Refs()[i].data == contents[i]
    {
    }

    // The start of andtree_remove_repair: the node whose data move, if any, and where the repair
    // begins. The node that leaves the tree is the j-th.
    method Choose(node: AndNode<D>)
      returns (successor: AndNode?<D>, repair: AndNode?<D>, ghost cv: Path<AndNode<D>>, ghost v: Tree<AndNode<D>>, ghost i: nat, ghost j: nat)
      requires Valid() && node in repr
      ensures At(mem, cv, v, root, nil) && v.Node? && v.left.Nil? && v.right.Nil? && LinkOf(repair) == ParentOf(cv)
      ensures v.item == (if successor == null then node else successor) && v.item in repr
      ensures i < |Refs()| && Refs()[i] == node && j < |Refs()| && Refs()[j] == v.item
      ensures (j == i || j + 1 == i || j == i + 1) && (successor == null ==> j == i)
      ensures AA(RemoveClimb(cv, Nil)) && InOrder(RemoveClimb(cv, Nil)) == Removed(Refs(), j)
    {
      hide Agrees, At, AA, InOrder, Removed, RemoveClimb, Plug, Before, After, Carries;
        ghost var (c, t) := FocusHere(node);
      RankInOrder(c, t);
      successor, cv, v := FindVictim(node, c, t);
      RankInOrder(cv, v);
      LeafRemoved(cv, v);
      See(cv, v);
      i, j := Rank(c, t), |Before(cv)|;
      repair := if successor != null then successor.parent else node.parent;
    }

    // andtree_remove
    method Remove(node: AndNode<D>) returns (ghost i: nat, ghost j: nat)
      requires Valid() && node in repr
      modifies this, nil`parent, repr`left, repr`right, repr`parent, repr`level, repr`data
      ensures Valid()
      ensures i < |old(Refs())| && old(Refs())[i] == node && contents == Removed(old(contents), i)
      ensures j < |old(Refs())| && Refs() == Removed(old(Refs()), j) && repr == old(repr) - {old(Refs())[j]}
    {
      hide Agrees, At, AA, InOrder, Removed, RemoveClimb, Rank, VictimRank, Seen;
      ghost var refs, data := Refs(), contents;
      RefsDistinct();
      var successor, repair;
      ghost var cv, v;
      successor, repair, cv, v, i, j := Choose(node);
      TakeOut(node, successor, cv, v);
      assert Handed(refs, data, i, j);
      RemoveRepair(repair, cv);
      CarriesRemoved(refs, data, i, j);
      shape, contents := RemoveClimb(cv, Nil), Removed(data, i);
    }

    // ----- Searching -----

    // The data of the subtree t at c are contents[Lo(c)..Hi(c, t)].
    ghost function Lo(c: Path<AndNode<D>>): nat {
      |Before(c)|
    }

    ghost function Hi(c: Path<AndNode<D>>, t: Tree<AndNode<D>>): nat {
      |Before(c)| + |InOrder(t)|
    }

    ghost predicate Within(c: Path<AndNode<D>>, t: Tree<AndNode<D>>)
      reads this, nil`level, nil`left, nil`right, repr
    {
      Valid() && At(mem, c, t, root, nil) && Plug(c, t) == shape
    }

    lemma Spread(c: Path<AndNode<D>>, t: Tree<AndNode<D>>)
      requires Within(c, t)
      ensures Seen(c, t) && Lo(c) <= Hi(c, t) <= |contents|
      ensures c.Top? ==> root == Ref(t, nil) && Lo(c) == 0 && Hi(c, t) == |contents|
      ensures t.Node? ==> t.item in repr && Lo(c) <= Rank(c, t) < Hi(c, t) && contents[Rank(c, t)] == t.item.data
      ensures t.Node? ==>
                var cl, cr := LeftOf(t.level, t.item, t.right, c), RightOf(t.left, t.level, t.item, c);
                && Within(cl, t.left) && Lo(cl) == Lo(c) && Hi(cl, t.left) == Rank(c, t)
                && Within(cr, t.right) && Lo(cr) == Rank(c, t) + 1 && Hi(cr, t.right) == Hi(c, t)
    {
      hide Agrees, At;
      See(c, t);
      PlugInOrder(c, t);
      if t.Node? {
        RankInOrder(c, t);
        SpreadLeft(c, t);
        SpreadRight(c, t);
      }
    }

    lemma SpreadLeft(c: Path<AndNode<D>>, t: Tree<AndNode<D>>)
      requires Within(c, t) && t.Node?
      ensures var cl := LeftOf(t.level, t.item, t.right, c);
              Within(cl, t.left) && Lo(cl) == Lo(c) && Hi(cl, t.left) == Rank(c, t)
    {
      hide Agrees, At;
      DescendLeft(mem, c, t, root, nil);
    }

    lemma SpreadRight(c: Path<AndNode<D>>, t: Tree<AndNode<D>>)
      requires Within(c, t) && t.Node?
      ensures var cr := RightOf(t.left, t.level, t.item, c);
              Within(cr, t.right) && Lo(cr) == Rank(c, t) + 1 && Hi(cr, t.right) == Hi(c, t)
    {
      hide Agrees, At;
      DescendRight(mem, c, t, root, nil);
    }

    lemma SpreadAll()
      requires Valid()
      ensures Within(Top, shape) && root == Ref(shape, nil) && Lo(Top) == 0 && Hi(Top, shape) == |contents|
    {
      Spread(Top, shape);
    }

    lemma SpanOfNil(c: Path<AndNode<D>>)
      ensures Hi(c, Nil) == Lo(c)
    {
    }

    lemma Shallow()
      requires Valid()
      ensures Depth(shape) <= 2 * Level(shape) && Pow2(Level(shape)) <= nodes + 1
    {
      DepthBound(shape);
      SizeBound(shape);
    }

    // andtree_find_key
    method FindKey(k: int, getKey: D ~> int, ghost key: D -> int) returns (r: AndNode?<D>, ghost steps: nat)
      requires Valid() && Sorted(key)
      requires forall d | d in contents :: getKey.requires(d) && getKey(d) == key(d)
      ensures r == null <==> forall d | d in contents :: key(d) != k
      ensures r != null ==> r in repr && r.data in contents && key(r.data) == k
      ensures steps <= 2 * Level(shape) && Pow2(Level(shape)) <= nodes + 1
    {
      hide Valid, Within, Lo, Hi, Rank;
      SpreadAll();
      Shallow();
      steps := 0;
      var temp := root;
      ghost var c, t := Path<AndNode<D>>.Top, shape;
      Spread(c, t);
      while temp.level != 0
        invariant Within(c, t) && temp == Ref(t, nil) && Seen(c, t) && Lo(c) <= Hi(c, t) <= |contents|
        invariant forall i | 0 <= i < Lo(c) :: key(contents[i]) < k
        invariant forall i | Hi(c, t) <= i < |contents| :: key(contents[i]) > k
        invariant steps + Depth(t) <= Depth(shape)
        decreases t
      {
        Spread(c, t);
        steps := steps + 1;
        var diff := k - getKey(temp.data);
        if diff == 0 {
          return temp, steps;
        }
        if diff <= 0 {
          c, t := LeftOf(t.level, t.item, t.right, c), t.left;
          temp := temp.left;
        } else {
          c, t := RightOf(t.left, t.level, t.item, c), t.right;
          temp := temp.right;
        }
        Spread(c, t);
      }
      SpanOfNil(c);
      r := null;
    }

    // andtree_find_dupe_data
    method FindDupeData(node: AndNode<D>, data: D, getKey: D ~> int, ghost key: D -> int,
                        ghost c: Path<AndNode<D>>, ghost t: Tree<AndNode<D>>) returns (r: AndNode?<D>)
      requires Within(c, t) && node == Ref(t, nil) && Sorted(key)
      requires forall d | d in contents || d == data :: getKey.requires(d) && getKey(d) == key(d)
      ensures r == null <==> forall i | Lo(c) <= i < Hi(c, t) && i < |contents| :: contents[i] != data
      ensures r != null ==> r in repr && r.data == data
      decreases t
    {
      hide Valid, Within, Lo, Hi, Rank;
      Spread(c, t);
      if node.level == 0 {
        SpanOfNil(c);
        return null;
      }
      if node.data == data {
        return node;
      }
      ghost var cl, cr := LeftOf(t.level, t.item, t.right, c), RightOf(t.left, t.level, t.item, c);
      var diff := getKey(data) - getKey(node.data);
      if diff == 0 {
        r := FindDupeData(node.left, data, getKey, key, cl, t.left);
        if r != null {
          return;
        }
        r := FindDupeData(node.right, data, getKey, key, cr, t.right);
        if r != null {
          return;
        }
      }
      if diff <= 0 {
        r := FindDupeData(node.left, data, getKey, key, cl, t.left);
      } else {
        r := FindDupeData(node.right, data, getKey, key, cr, t.right);
      }
    }

    // andtree_find_data
    method FindData(data: D, getKey: D ~> int, ghost key: D -> int) returns (r: AndNode?<D>)
      requires Valid() && Sorted(key)
      requires forall d | d in contents || d == data :: getKey.requires(d) && getKey(d) == key(d)
      ensures r == null <==> data !in contents
      ensures r != null ==> r in repr && r.data == data
    {
      hide Valid, Within, Lo, Hi, Rank;
      SpreadAll();
      var temp := root;
      ghost var c, t := Path<AndNode<D>>.Top, shape;
      Spread(c, t);
      while temp.level != 0
        invariant Within(c, t) && temp == Ref(t, nil) && Seen(c, t) && Lo(c) <= Hi(c, t) <= |contents|
        invariant forall i | 0 <= i < Lo(c) :: key(contents[i]) < key(data)
        invariant forall i | Hi(c, t) <= i < |contents| :: key(contents[i]) > key(data)
        decreases t
      {
        Spread(c, t);
        var diff := getKey(data) - getKey(temp.data);
        if diff == 0 {
          r := FindDupeData(temp, data, getKey, key, c, t);
          return;
        }
        if diff <= 0 {
          c, t := LeftOf(t.level, t.item, t.right, c), t.left;
          temp := temp.left;
        } else {
          c, t := RightOf(t.left, t.level, t.item, c), t.right;
          temp := temp.right;
        }
        Spread(c, t);
      }
      SpanOfNil(c);
      r := null;
    }

    // do_find_at_least
    method DoFindAtLeast(node: AndNode<D>, k: int, getKey: D ~> int, ghost key: D -> int,
                         ghost c: Path<AndNode<D>>, ghost t: Tree<AndNode<D>>) returns (r: AndNode?<D>)
      requires Within(c, t) && node == Ref(t, nil) && Sorted(key)
      requires forall d | d in contents :: getKey.requires(d) && getKey(d) == key(d)
      ensures r == null <==> forall i | Lo(c) <= i < Hi(c, t) && i < |contents| :: key(contents[i]) < k
      ensures r != null ==> r in repr && r.data in contents && key(r.data) >= k
      ensures r != null ==> forall i | Lo(c) <= i < Hi(c, t) && i < |contents| && key(contents[i]) >= k :: key(contents[i]) >= key(r.data)
      decreases t
    {
      hide Valid, Within, Lo, Hi, Rank;
      Spread(c, t);
      if node.level == 0 {
        SpanOfNil(c);
        return null;
      }
      var diff := k - getKey(node.data);
      if diff == 0 {
        return node;
      }
      ghost var cl, cr := LeftOf(t.level, t.item, t.right, c), RightOf(t.left, t.level, t.item, c);
      var temp: AndNode?<D>;
      if diff <= 0 {
        temp := DoFindAtLeast(node.left, k, getKey, key, cl, t.left);
      } else {
        temp := DoFindAtLeast(node.right, k, getKey, key, cr, t.right);
      }
      if diff < 0 {
        r := if temp != null && k - getKey(temp.data) > diff then temp else node;
      } else {
        r := temp;
      }
    }

    // andtree_find_at_least
    method FindAtLeast(k: int, getKey: D ~> int, ghost key: D -> int) returns (r: AndNode?<D>)
      requires Valid() && Sorted(key)
      requires forall d | d in contents :: getKey.requires(d) && getKey(d) == key(d)
      ensures r == null <==> forall d | d in contents :: key(d) < k
      ensures r != null ==> r in repr && r.data in contents && key(r.data) >= k
      ensures r != null ==> forall d | d in contents && key(d) >= k :: key(d) >= key(r.data)
    {
      hide Valid, Within, Lo, Hi;
      SpreadAll();
      r := DoFindAtLeast(root, k, getKey, key, Top, shape);
    }

    // ----- Stepping through the order -----

    lemma ClimbUp(c: Path<AndNode<D>>, t: Tree<AndNode<D>>)
      requires Within(c, t) && t.Node? && !c.Top?
      ensures var u := Rejoin(c, t);
              && Within(c.up, u) && Seen(c.up, u) && u.item in repr && u.item.level > 0
              && (c.RightOf? ==> u.item.right == t.item && u.item.left != t.item && Hi(c.up, u) == Hi(c, t) && Rank(c.up, u) + 1 == Lo(c))
              && (c.LeftOf? ==> u.item.left == t.item && u.item.right != t.item && Lo(c.up) == Lo(c) && Rank(c.up, u) == Hi(c, t))
    {
      hide Agrees, At;
      Ascend(mem, c, t, root, nil);
      See(c.up, Rejoin(c, t));
      SiblingsDiffer(mem, c, t, root, nil);
    }

    lemma RankRef(c: Path<AndNode<D>>, t: Tree<AndNode<D>>)
      requires Plug(c, t) == shape && t.Node?
      ensures Rank(c, t) < |Refs()| && Refs()[Rank(c, t)] == t.item
    {
      RankInOrder(c, t);
    }

    lemma EmptySpan(c: Path<AndNode<D>>, t: Tree<AndNode<D>>)
      requires t.Node?
      ensures t.right.Nil? ==> Hi(c, t) == Rank(c, t) + 1
      ensures t.left.Nil? ==> Lo(c) == Rank(c, t)
    {
      assert t.left.Nil? ==> InOrder(t.left) == [];
      assert t.right.Nil? ==> InOrder(t.right) == [];
    }

    // andtree_next
    method Next(node: AndNode<D>) returns (r: AndNode?<D>, ghost i: nat)
      requires Valid() && node in repr
      ensures i < |Refs()| && Refs()[i] == node
      ensures r == if i + 1 < |Refs()| then Refs()[i + 1] else null
    {
      hide Agrees, At, AA, InOrder;
      ghost var focus := FocusHere(node);
      ghost var c: Path<AndNode<D>>, t: Tree<AndNode<D>> := focus.0, focus.1;
      Spread(c, t);
      RankRef(c, t);
      i := Rank(c, t);
      var right;
      ghost var cm, m;
      right, cm, m := FindMin(node.right, RightOf(t.left, t.level, t.item, c), t.right);
      var last, p := node, node.parent;
      if right != null {
        RankRef(cm, m);
        return right, i;
      }
      EmptySpan(c, t);
      while p != null && p.level != 0 && p.right == last
        invariant Within(c, t) && t.Node? && last == t.item && LinkOf(p) == ParentOf(c)
        invariant Hi(c, t) == i + 1
        decreases c
      {
        ClimbUp(c, t);
        last, p := p, p.parent;
        c, t := c.up, Rejoin(c, t);
      }
      if c.Top? {
        Spread(c, t);
      } else {
        ClimbUp(c, t);
        RankRef(c.up, Rejoin(c, t));
      }
      r := p;
    }

    // andtree_previous
    method Previous(node: AndNode<D>) returns (r: AndNode?<D>, ghost i: nat)
      requires Valid() && node in repr
      ensures i < |Refs()| && Refs()[i] == node
      ensures r == if i > 0 then Refs()[i - 1] else null
    {
      hide Agrees, At, AA, InOrder;
      ghost var focus := FocusHere(node);
      ghost var c: Path<AndNode<D>>, t: Tree<AndNode<D>> := focus.0, focus.1;
      Spread(c, t);
      RankRef(c, t);
      i := Rank(c, t);
      var left;
      ghost var cm, m;
      left, cm, m := FindMax(node.left, LeftOf(t.level, t.item, t.right, c), t.left);
      var last, p := node, node.parent;
      if left != null {
        RankRef(cm, m);
        return left, i;
      }
      EmptySpan(c, t);
      while p != null && p.level != 0 && p.left == last
        invariant Within(c, t) && t.Node? && last == t.item && LinkOf(p) == ParentOf(c)
        invariant Lo(c) == i
        decreases c
      {
        ClimbUp(c, t);
        last, p := p, p.parent;
        c, t := c.up, Rejoin(c, t);
      }
      if c.Top? {
        Spread(c, t);
      } else {
        ClimbUp(c, t);
        RankRef(c.up, Rejoin(c, t));
      }
      r := p;
    }

    // ----- Removal by key and by data -----

    // andtree_remove_key
    method RemoveKey(k: int, getKey: D ~> int, ghost key: D -> int) returns (r: Option<D>, ghost i: nat)
      requires Valid() && Sorted(key)
      requires forall d | d in contents :: getKey.requires(d) && getKey(d) == key(d)
      modifies this, nil`parent, repr`left, repr`right, repr`parent, repr`level, repr`data
      ensures Valid() && Sorted(key) && repr <= old(repr)
      ensures r.None? ==> contents == old(contents) && forall d | d in contents :: key(d) != k
      ensures r.Some? ==> i < |old(contents)| && old(contents)[i] == r.value && key(r.value) == k && contents == Removed(old(contents), i)
    {
      hide Valid;
      var node;
      ghost var steps;
      node, steps := FindKey(k, getKey, key);
      r, i := None, 0;
      if node != null {
        r := Some(node.data);
        ghost var j;
        DataAt(node);
        i, j := Remove(node);
        SortedRemoved(old(contents), i, key);
      }
    }

    // andtree_remove_data
    method RemoveData(data: D, getKey: D ~> int, ghost key: D -> int) returns (found: bool, ghost i: nat)
      requires Valid() && Sorted(key)
      requires forall d | d in contents || d == data :: getKey.requires(d) && getKey(d) == key(d)
      modifies this, nil`parent, repr`left, repr`right, repr`parent, repr`level, repr`data
      ensures Valid() && Sorted(key) && repr <= old(repr)
      ensures found == (data in old(contents))
      ensures !found ==> contents == old(contents)
      ensures found ==> i < |old(contents)| && old(contents)[i] == data && contents == Removed(old(contents), i)
    {
      hide Valid;
      var node := FindData(data, getKey, key);
      i := 0;
      found := node != null;
      if node != null {
        ghost var j;
        DataAt(node);
        i, j := Remove(node);
        SortedRemoved(old(contents), i, key);
      }
    }
  }
}
