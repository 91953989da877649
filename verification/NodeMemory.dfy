/** The node fields as a map from nodes to cells, and what it means for them to be linked up
    in a given shape. A pointer write is an update of the map. */
module NodeMemory {
  import opened Common
  import opened AATree

  datatype Link<+T> = Null | To(node: T)
  datatype Cell<T> = Cell(parent: Link<T>, left: T, right: T, level: nat)
  type Memory<T> = map<T, Cell<T>>

  ghost function Items<T>(t: Tree<T>): set<T> {
    if t.Nil? then {} else Items(t.left) + {t.item} + Items(t.right)
  }

  ghost function PathItems<T>(c: Path<T>): set<T> {
    match c
    case Top => {}
    case LeftOf(_, x, r, up) => {x} + Items(r) + PathItems(up)
    case RightOf(l, _, x, up) => Items(l) + {x} + PathItems(up)
  }

  ghost predicate Distinct<T>(t: Tree<T>) {
    t.Node? ==>
      && t.item !in Items(t.left) && t.item !in Items(t.right)
      && Items(t.left) !! Items(t.right)
      && Distinct(t.left) && Distinct(t.right)
  }

  ghost predicate DistinctPath<T>(c: Path<T>) {
    match c
    case Top => true
    case LeftOf(_, x, r, up) =>
      && x !in Items(r) && x !in PathItems(up) && Items(r) !! PathItems(up)
      && Distinct(r) && DistinctPath(up)
    case RightOf(l, _, x, up) =>
      && x !in Items(l) && x !in PathItems(up) && Items(l) !! PathItems(up)
      && Distinct(l) && DistinctPath(up)
  }

  // A subtree and the path above it share no item, and neither holds the sentinel.
  ghost predicate Apart<T>(c: Path<T>, t: Tree<T>, nil: T) {
    && nil !in PathItems(c) && nil !in Items(t)
    && PathItems(c) !! Items(t) && Distinct(t) && DistinctPath(c)
  }

  // The nodes reached from n are laid out as t, under the parent p.
  ghost predicate Linked<T>(m: Memory<T>, t: Tree<T>, n: T, p: Link<T>, nil: T) {
    match t
    case Nil => n == nil
    case Node(l, lv, x, r) =>
      && n == x && x in m && m[x].parent == p && m[x].level == lv > 0
      && Linked(m, l, m[x].left, To(x), nil) && Linked(m, r, m[x].right, To(x), nil)
  }

  // From a subtree rooted at n under p, the parent links lead up to root along c.
  ghost predicate Held<T>(m: Memory<T>, c: Path<T>, n: T, p: Link<T>, root: T, nil: T) {
    match c
    case Top => p == Null && n == root
    case LeftOf(lv, x, r, up) =>
      && p == To(x) && x in m && m[x].level == lv > 0 && m[x].left == n
      && Linked(m, r, m[x].right, To(x), nil) && Held(m, up, x, m[x].parent, root, nil)
    case RightOf(l, lv, x, up) =>
      && p == To(x) && x in m && m[x].level == lv > 0 && m[x].right == n
      && Linked(m, l, m[x].left, To(x), nil) && Held(m, up, x, m[x].parent, root, nil)
  }

  lemma {:induction false} InOrderItems<T>(t: Tree<T>)
    ensures forall k | 0 <= k < |InOrder(t)| :: InOrder(t)[k] in Items(t)
    ensures forall x | x in Items(t) :: x in InOrder(t)
  {
    if t.Node? {
      InOrderItems(t.left);
      InOrderItems(t.right);
    }
  }

  lemma {:induction false} InOrderDistinct<T>(t: Tree<T>)
    requires Distinct(t)
    ensures forall i, j | 0 <= i < j < |InOrder(t)| :: InOrder(t)[i] != InOrder(t)[j]
  {
    if t.Node? {
      InOrderDistinct(t.left);
      InOrderDistinct(t.right);
      InOrderItems(t.left);
      InOrderItems(t.right);
      var l, r, s := InOrder(t.left), InOrder(t.right), InOrder(t);
      forall i, j | 0 <= i < j < |s|
        ensures s[i] != s[j]
      {
        assert i < |l| ==> s[i] == l[i];
        assert j > |l| ==> s[j] == r[j - |l| - 1];
      }
    }
  }

  // The node at the top of a shape, or the sentinel; the node above the subtree a path leads to.
  function Ref<T>(t: Tree<T>, nil: T): T {
    if t.Nil? then nil else t.item
  }

  function ParentOf<T>(c: Path<T>): Link<T> {
    if c.Top? then Null else To(c.item)
  }

  // The memory holds the whole tree, seen from the subtree t at the end of c.
  ghost predicate At<T>(m: Memory<T>, c: Path<T>, t: Tree<T>, root: T, nil: T) {
    && Apart(c, t, nil) && m.Keys == PathItems(c) + Items(t)
    && Linked(m, t, Ref(t, nil), ParentOf(c), nil)
    && Held(m, c, Ref(t, nil), ParentOf(c), root, nil)
  }

  ghost predicate SameOn<T>(m: Memory<T>, m': Memory<T>, s: set<T>) {
    forall x | x in s && x in m :: x in m' && m'[x] == m[x]
  }

  lemma {:induction false} LinkedFrame<T>(m: Memory<T>, m': Memory<T>, t: Tree<T>, n: T, p: Link<T>, nil: T)
    requires Linked(m, t, n, p, nil) && SameOn(m, m', Items(t))
    ensures Linked(m', t, n, p, nil)
  {
    if t.Node? {
      LinkedFrame(m, m', t.left, m[n].left, To(n), nil);
      LinkedFrame(m, m', t.right, m[n].right, To(n), nil);
    }
  }

  lemma {:induction false} HeldFrame<T>(m: Memory<T>, m': Memory<T>, c: Path<T>, n: T, p: Link<T>, root: T, nil: T)
    requires Held(m, c, n, p, root, nil) && SameOn(m, m', PathItems(c))
    ensures Held(m', c, n, p, root, nil)
    decreases c
  {
    match c {
      case Top =>
      case LeftOf(_, x, r, up) =>
        LinkedFrame(m, m', r, m[x].right, To(x), nil);
        HeldFrame(m, m', up, x, m[x].parent, root, nil);
      case RightOf(l, _, x, up) =>
        LinkedFrame(m, m', l, m[x].left, To(x), nil);
        HeldFrame(m, m', up, x, m[x].parent, root, nil);
    }
  }

  lemma {:induction false} RootOnPath<T>(m: Memory<T>, c: Path<T>, n: T, p: Link<T>, root: T, nil: T)
    requires Held(m, c, n, p, root, nil)
    ensures if c.Top? then n == root else root in PathItems(c)
    decreases c
  {
    if !c.Top? {
      RootOnPath(m, c.up, c.item, m[c.item].parent, root, nil);
    }
  }

  // ----- Pointer writes. A write to the sentinel, which is not in the map, changes nothing. -----

  function WithLeft<T>(m: Memory<T>, x: T, v: T): Memory<T> {
    if x in m then m[x := m[x].(left := v)] else m
  }

  function WithRight<T>(m: Memory<T>, x: T, v: T): Memory<T> {
    if x in m then m[x := m[x].(right := v)] else m
  }

  function WithParent<T>(m: Memory<T>, x: T, v: Link<T>): Memory<T> {
    if x in m then m[x := m[x].(parent := v)] else m
  }

  function WithLevel<T>(m: Memory<T>, x: T, v: nat): Memory<T> {
    if x in m then m[x := m[x].(level := v)] else m
  }

  // ----- Moving along the links -----

  lemma {:induction false} Ascend<T>(m: Memory<T>, c: Path<T>, t: Tree<T>, root: T, nil: T)
    requires At(m, c, t, root, nil) && !c.Top?
    ensures At(m, c.up, Rejoin(c, t), root, nil)
    ensures c.item in m && m[c.item].parent == ParentOf(c.up) && m[c.item].level > 0
  {
    var x := c.item;
    assert Held(m, c.up, x, m[x].parent, root, nil);
    if c.LeftOf? {
      assert Linked(m, c.right, m[x].right, To(x), nil);
    } else {
      assert Linked(m, c.left, m[x].left, To(x), nil);
    }
  }

  lemma {:induction false} DescendLeft<T>(m: Memory<T>, c: Path<T>, t: Tree<T>, root: T, nil: T)
    requires At(m, c, t, root, nil) && t.Node?
    ensures At(m, LeftOf(t.level, t.item, t.right, c), t.left, root, nil)
    ensures m[t.item].left == Ref(t.left, nil)
  {
    assert Linked(m, t.left, m[t.item].left, To(t.item), nil);
    assert Linked(m, t.right, m[t.item].right, To(t.item), nil);
  }

  lemma {:induction false} DescendRight<T>(m: Memory<T>, c: Path<T>, t: Tree<T>, root: T, nil: T)
    requires At(m, c, t, root, nil) && t.Node?
    ensures At(m, RightOf(t.left, t.level, t.item, c), t.right, root, nil)
    ensures m[t.item].right == Ref(t.right, nil)
  {
    assert Linked(m, t.left, m[t.item].left, To(t.item), nil);
    assert Linked(m, t.right, m[t.item].right, To(t.item), nil);
  }

  lemma {:induction false} SiblingsDiffer<T>(m: Memory<T>, c: Path<T>, t: Tree<T>, root: T, nil: T)
    requires At(m, c, t, root, nil) && t.Node? && !c.Top?
    ensures t.item != Ref(if c.LeftOf? then c.right else c.left, nil)
  {
  }

  // What the node at the focus holds.
  lemma {:induction false} FocusCell<T>(m: Memory<T>, c: Path<T>, t: Tree<T>, root: T, nil: T)
    requires At(m, c, t, root, nil)
    ensures nil !in m
    ensures t.Node? ==> t.item in m && m[t.item] == Cell(ParentOf(c), Ref(t.left, nil), Ref(t.right, nil), t.level) && t.level > 0
  {
    if t.Node? {
      assert Linked(m, t.left, m[t.item].left, To(t.item), nil);
      assert Linked(m, t.right, m[t.item].right, To(t.item), nil);
    }
  }

  lemma {:induction false} Releveled<T>(m: Memory<T>, c: Path<T>, t: Tree<T>, root: T, nil: T, lv: nat)
    requires At(m, c, t, root, nil) && t.Node? && lv > 0
    ensures t.item in m && At(WithLevel(m, t.item, lv), c, t.(level := lv), root, nil)
  {
    var m' := WithLevel(m, t.item, lv);
    LinkedFrame(m, m', t.left, m[t.item].left, To(t.item), nil);
    LinkedFrame(m, m', t.right, m[t.item].right, To(t.item), nil);
    HeldFrame(m, m', c, t.item, ParentOf(c), root, nil);
  }

  // A new leaf x goes where the path ends.
  ghost function Grafted<T>(m: Memory<T>, c: Path<T>, x: T, nil: T): Memory<T> {
    var m' := m[x := Cell(Null, nil, nil, 1)];
    match c
    case Top => m'
    case LeftOf(_, p, _, _) => WithParent(WithLeft(m', p, x), x, To(p))
    case RightOf(_, _, p, _) => WithParent(WithRight(m', p, x), x, To(p))
  }

  lemma {:induction false} GraftedAt<T>(m: Memory<T>, c: Path<T>, x: T, root: T, nil: T)
    requires At(m, c, Nil, root, nil) && x !in m && x != nil
    ensures At(Grafted(m, c, x, nil), c, Node(Nil, 1, x, Nil), if c.Top? then x else root, nil)
  {
    var m' := Grafted(m, c, x, nil);
    if c.LeftOf? {
      LinkedFrame(m, m', c.right, m[c.item].right, To(c.item), nil);
      HeldFrame(m, m', c.up, c.item, m[c.item].parent, root, nil);
    } else if c.RightOf? {
      LinkedFrame(m, m', c.left, m[c.item].left, To(c.item), nil);
      HeldFrame(m, m', c.up, c.item, m[c.item].parent, root, nil);
    }
  }

  // replace_in_parent
  ghost function Replaced<T>(m: Memory<T>, node: T, v: T): Memory<T>
    requires node in m
  {
    var p := m[node].parent;
    var m1 := if p.Null? || p.node !in m then m
              else if m[p.node].left != node then WithRight(m, p.node, v)
              else WithLeft(m, p.node, v);
    if v in m1 && m1[v].level != 0 then WithParent(m1, v, m1[node].parent) else m1
  }

  // The cell of n once v hangs where node did, below p.
  ghost function Rehung<T>(k: Cell<T>, n: T, p: Link<T>, node: T, v: T): Cell<T> {
    if p != To(n) then k else if k.left != node then k.(right := v) else k.(left := v)
  }

  // The context sees nothing of what happens below, except that the child changes.
  lemma {:induction false} Regrafted<T>(m: Memory<T>, m': Memory<T>, c: Path<T>, x: T, y: T, p: Link<T>, root: T, nil: T)
    requires Held(m, c, x, p, root, nil) && DistinctPath(c) && x !in PathItems(c) && x != nil && nil !in PathItems(c)
    requires forall n | n in PathItems(c) && n in m :: n in m' && m'[n] == Rehung(m[n], n, p, x, y)
    ensures Held(m', c, y, p, if c.Top? then y else root, nil)
  {
    match c {
      case Top =>
      case LeftOf(_, q, r, up) =>
        LinkedFrame(m, m', r, m[q].right, To(q), nil);
        HeldFrame(m, m', up, q, m[q].parent, root, nil);
      case RightOf(l, _, q, up) =>
        LinkedFrame(m, m', l, m[q].left, To(q), nil);
        HeldFrame(m, m', up, q, m[q].parent, root, nil);
    }
  }

  // ----- Taking a leaf out -----

  lemma {:induction false} PrunedAt<T>(m: Memory<T>, c: Path<T>, leaf: Tree<T>, root: T, nil: T)
    requires At(m, c, leaf, root, nil) && leaf.Node? && leaf.left.Nil? && leaf.right.Nil?
    ensures leaf.item in m && (m[leaf.item].parent.To? ==> m[leaf.item].parent.node in m)
    ensures At(Replaced(m, leaf.item, nil) - {leaf.item}, c, Nil, if leaf.item == root then nil else root, nil)
  {
    var x, p := leaf.item, ParentOf(c);
    var m' := Replaced(m, x, nil) - {x};
    RootOnPath(m, c, x, p, root, nil);
    assert !c.Top? ==> Held(m, c, x, p, root, nil);
    Regrafted(m, m', c, x, nil, p, root, nil);
  }

  // The path to a node, and the subtree it is on top of.
  ghost function FocusOn<T>(c: Path<T>, t: Tree<T>, x: T): (Path<T>, Tree<T>)
    requires x in Items(t)
    decreases t
  {
    if x == t.item then (c, t)
    else if x in Items(t.left) then FocusOn(LeftOf(t.level, t.item, t.right, c), t.left, x)
    else FocusOn(RightOf(t.left, t.level, t.item, c), t.right, x)
  }

  lemma {:induction false} FocusAt<T>(m: Memory<T>, c: Path<T>, t: Tree<T>, x: T, root: T, nil: T)
    requires x in Items(t) && At(m, c, t, root, nil)
    ensures var (c', t') := FocusOn(c, t, x);
            At(m, c', t', root, nil) && t'.Node? && t'.item == x && Plug(c', t') == Plug(c, t)
    decreases t
  {
    if x == t.item {
    } else if x in Items(t.left) {
      DescendLeft(m, c, t, root, nil);
      FocusAt(m, LeftOf(t.level, t.item, t.right, c), t.left, x, root, nil);
    } else {
      DescendRight(m, c, t, root, nil);
      FocusAt(m, RightOf(t.left, t.level, t.item, c), t.right, x, root, nil);
    }
  }

  // Where a subtree hangs is all that changes when its top gets another parent.
  lemma {:induction false} Reparented<T>(m: Memory<T>, m': Memory<T>, t: Tree<T>, n: T, p: Link<T>, p': Link<T>, nil: T)
    requires Linked(m, t, n, p, nil) && Distinct(t)
    requires forall z | z in Items(t) && z in m :: z in m' && m'[z] == if z == n then m[z].(parent := p') else m[z]
    ensures Linked(m', t, n, p', nil)
  {
    if t.Node? {
      LinkedFrame(m, m', t.left, m[n].left, To(n), nil);
      LinkedFrame(m, m', t.right, m[n].right, To(n), nil);
    }
  }

  // The last writes of a rotation: y takes the place of x, and x and mid get new parents.
  ghost function Swung<T>(m: Memory<T>, x: T, y: T, mid: T): (m': Memory<T>)
    requires x in m && y in m && (m[x].parent.To? ==> m[x].parent.node in m) && mid != x
    ensures m'.Keys == m.Keys
  {
    WithParent(Replaced(WithParent(m, mid, To(x)), x, y), x, To(y))
  }

  // ----- Rotating to the right -----

  // The nodes that a rotation to the right at x writes to are different nodes.
  ghost predicate CanRotateRight<T>(m: Memory<T>, x: T, nil: T) {
    && x in m && m[x].left in m && m[x].left != x && nil !in m && m[m[x].left].level > 0
    && var y, p := m[x].left, m[x].parent;
    var mid := m[y].right;
    && (mid == nil || mid in m) && mid != x && mid != y
    && (p.To? ==> p.node in m && p.node != x && p.node != y && p.node != mid)
  }

  // What rotate to the right at x writes, one write after the other.
  ghost function RightRotation<T>(m: Memory<T>, x: T, nil: T): (m': Memory<T>)
    requires CanRotateRight(m, x, nil)
    ensures m'.Keys == m.Keys
  {
    var y := m[x].left;
    var mid := m[y].right;
    var m1 := WithRight(WithLeft(m, x, mid), y, x);
    Swung(m1, x, y, mid)
  }

  lemma {:induction false} RightRotationReads<T>(m: Memory<T>, x: T, nil: T)
    requires CanRotateRight(m, x, nil)
    ensures x in m && m[x].left in m && (m[m[x].left].right == nil || m[m[x].left].right in m)
    ensures var y := m[x].left;
            var mid := m[y].right;
            var m1 := WithRight(WithLeft(m, x, mid), y, x);
            && x in m1 && y in m1 && m1[x].left == mid && mid != x && (mid == nil || mid in m1)
            && m1[x].parent == m[x].parent && (m[x].parent.To? ==> m[x].parent.node in m1)
  {
  }

  // The same writes, node by node.
  lemma {:induction false} RightRotationCells<T>(m: Memory<T>, x: T, nil: T, n: T)
    requires CanRotateRight(m, x, nil) && n in m
    ensures var y, p := m[x].left, m[x].parent;
            RightRotation(m, x, nil)[n] ==
            if n == x then m[n].(parent := To(y), left := m[y].right)
            else if n == y then m[n].(parent := p, right := x)
            else if n == m[y].right then m[n].(parent := To(x))
            else Rehung(m[n], n, p, x, y)
  {
  }

  function RightRotated<T>(t: Tree<T>): Tree<T>
    requires t.Node? && t.left.Node?
  {
    var l := t.left;
    Node(l.left, l.level, l.item, Node(l.right, t.level, t.item, t.right))
  }

  lemma {:induction false} RightRotatedApart<T>(c: Path<T>, t: Tree<T>, nil: T)
    requires t.Node? && t.left.Node? && Apart(c, t, nil)
    ensures Apart(c, RightRotated(t), nil) && Items(RightRotated(t)) == Items(t)
  {
    assert Distinct(t.left);
  }

  lemma {:induction false} RightPivotLinks<T>(m: Memory<T>, t: Tree<T>, p: Link<T>, nil: T)
    requires t.Node? && t.left.Node? && Linked(m, t, t.item, p, nil) && Distinct(t)
    ensures var x, y, l := t.item, t.left.item, t.left;
            && x in m && m[x].parent == p && m[x].left == y && x != y && y in m && m[y].level > 0
            && (l.right.Nil? ==> m[y].right == nil)
            && (l.right.Node? ==> m[y].right == l.right.item && m[y].right in m && m[y].right in Items(t) - {x, y})
            && Linked(m, l.left, m[y].left, To(y), nil) && Linked(m, l.right, m[y].right, To(y), nil)
            && Linked(m, t.right, m[x].right, To(x), nil)
  {
    var l := t.left;
    assert Linked(m, l, m[t.item].left, To(t.item), nil) && Distinct(l);
    assert Linked(m, l.right, m[l.item].right, To(l.item), nil);
  }

  lemma {:induction false} RotatedRightBelow<T>(m: Memory<T>, t: Tree<T>, p: Link<T>, nil: T)
    requires t.Node? && t.left.Node? && Linked(m, t, t.item, p, nil) && Distinct(t)
    requires CanRotateRight(m, t.item, nil) && (p.To? ==> p.node !in Items(t))
    ensures Linked(RightRotation(m, t.item, nil), RightRotated(t), t.left.item, p, nil)
  {
    RightPivotLinks(m, t, p, nil);
    var x, y, l := t.item, t.left.item, t.left;
    var m' := RightRotation(m, x, nil);
    forall n | n in m
      ensures m'[n] ==
              if n == x then m[n].(parent := To(y), left := m[y].right)
              else if n == y then m[n].(parent := p, right := x)
              else if n == m[y].right then m[n].(parent := To(x))
              else Rehung(m[n], n, p, x, y)
    {
      RightRotationCells(m, x, nil, n);
    }
    hide RightRotation, CanRotateRight;
    assert Distinct(l);
    LinkedFrame(m, m', l.left, m[y].left, To(y), nil);
    LinkedFrame(m, m', t.right, m[x].right, To(x), nil);
    assert Distinct(l.right);
    Reparented(m, m', l.right, m[y].right, To(y), To(x), nil);
    assert Linked(m', Node(l.right, t.level, x, t.right), x, To(y), nil);
  }

  lemma {:induction false} RotatedRight<T>(m: Memory<T>, c: Path<T>, t: Tree<T>, root: T, nil: T)
    requires t.Node? && t.left.Node? && At(m, c, t, root, nil)
    ensures CanRotateRight(m, t.item, nil) && m[t.item].left == t.left.item
    ensures At(RightRotation(m, t.item, nil), c, RightRotated(t), if t.item == root then t.left.item else root, nil)
  {
    var x, y, p := t.item, t.left.item, ParentOf(c);
    RightPivotLinks(m, t, p, nil);
    assert CanRotateRight(m, x, nil);
    RotatedRightBelow(m, t, p, nil);
    RightRotatedApart(c, t, nil);
    RootOnPath(m, c, x, p, root, nil);
    var m' := RightRotation(m, x, nil);
    forall n | n in PathItems(c) && n in m
      ensures m'[n] == Rehung(m[n], n, p, x, y)
    {
      RightRotationCells(m, x, nil, n);
    }
    Regrafted(m, m', c, x, y, p, root, nil);
  }

  // ----- Rotating to the left, the mirror image -----

  // The nodes that a rotation to the left at x writes to are different nodes.
  ghost predicate CanRotateLeft<T>(m: Memory<T>, x: T, nil: T) {
    && x in m && m[x].right in m && m[x].right != x && nil !in m && m[m[x].right].level > 0
    && var y, p := m[x].right, m[x].parent;
    var mid := m[y].left;
    && (mid == nil || mid in m) && mid != x && mid != y
    && (p.To? ==> p.node in m && p.node != x && p.node != y && p.node != mid)
  }

  // What rotate to the left at x writes, one write after the other.
  ghost function LeftRotation<T>(m: Memory<T>, x: T, nil: T): (m': Memory<T>)
    requires CanRotateLeft(m, x, nil)
    ensures m'.Keys == m.Keys
  {
    var y := m[x].right;
    var mid := m[y].left;
    var m1 := WithLeft(WithRight(m, x, mid), y, x);
    Swung(m1, x, y, mid)
  }

  lemma {:induction false} LeftRotationReads<T>(m: Memory<T>, x: T, nil: T)
    requires CanRotateLeft(m, x, nil)
    ensures x in m && m[x].right in m && (m[m[x].right].left == nil || m[m[x].right].left in m)
    ensures var y := m[x].right;
            var mid := m[y].left;
            var m1 := WithLeft(WithRight(m, x, mid), y, x);
            && x in m1 && y in m1 && m1[x].right == mid && mid != x && (mid == nil || mid in m1)
            && m1[x].parent == m[x].parent && (m[x].parent.To? ==> m[x].parent.node in m1)
  {
  }

  // The same writes, node by node.
  lemma {:induction false} LeftRotationCells<T>(m: Memory<T>, x: T, nil: T, n: T)
    requires CanRotateLeft(m, x, nil) && n in m
    ensures var y, p := m[x].right, m[x].parent;
            LeftRotation(m, x, nil)[n] ==
            if n == x then m[n].(parent := To(y), right := m[y].left)
            else if n == y then m[n].(parent := p, left := x)
            else if n == m[y].left then m[n].(parent := To(x))
            else Rehung(m[n], n, p, x, y)
  {
  }

  function LeftRotated<T>(t: Tree<T>): Tree<T>
    requires t.Node? && t.right.Node?
  {
    var r := t.right;
    Node(Node(t.left, t.level, t.item, r.left), r.level, r.item, r.right)
  }

  lemma {:induction false} LeftRotatedApart<T>(c: Path<T>, t: Tree<T>, nil: T)
    requires t.Node? && t.right.Node? && Apart(c, t, nil)
    ensures Apart(c, LeftRotated(t), nil) && Items(LeftRotated(t)) == Items(t)
  {
    assert Distinct(t.right);
  }

  lemma {:induction false} LeftPivotLinks<T>(m: Memory<T>, t: Tree<T>, p: Link<T>, nil: T)
    requires t.Node? && t.right.Node? && Linked(m, t, t.item, p, nil) && Distinct(t)
    ensures var x, y, r := t.item, t.right.item, t.right;
            && x in m && m[x].parent == p && m[x].right == y && x != y && y in m && m[y].level > 0
            && (r.left.Nil? ==> m[y].left == nil)
            && (r.left.Node? ==> m[y].left == r.left.item && m[y].left in m && m[y].left in Items(t) - {x, y})
            && Linked(m, r.right, m[y].right, To(y), nil) && Linked(m, r.left, m[y].left, To(y), nil)
            && Linked(m, t.left, m[x].left, To(x), nil)
  {
    var r := t.right;
    assert Linked(m, r, m[t.item].right, To(t.item), nil) && Distinct(r);
    assert Linked(m, r.left, m[r.item].left, To(r.item), nil);
  }

  lemma {:induction false} RotatedLeftBelow<T>(m: Memory<T>, t: Tree<T>, p: Link<T>, nil: T)
    requires t.Node? && t.right.Node? && Linked(m, t, t.item, p, nil) && Distinct(t)
    requires CanRotateLeft(m, t.item, nil) && (p.To? ==> p.node !in Items(t))
    ensures Linked(LeftRotation(m, t.item, nil), LeftRotated(t), t.right.item, p, nil)
  {
    LeftPivotLinks(m, t, p, nil);
    var x, y, r := t.item, t.right.item, t.right;
    var m' := LeftRotation(m, x, nil);
    forall n | n in m
      ensures m'[n] ==
              if n == x then m[n].(parent := To(y), right := m[y].left)
              else if n == y then m[n].(parent := p, left := x)
              else if n == m[y].left then m[n].(parent := To(x))
              else Rehung(m[n], n, p, x, y)
    {
      LeftRotationCells(m, x, nil, n);
    }
    hide LeftRotation, CanRotateLeft;
    assert Distinct(r);
    LinkedFrame(m, m', r.right, m[y].right, To(y), nil);
    LinkedFrame(m, m', t.left, m[x].left, To(x), nil);
    assert Distinct(r.left);
    Reparented(m, m', r.left, m[y].left, To(y), To(x), nil);
    assert Linked(m', Node(t.left, t.level, x, r.left), x, To(y), nil);
  }

  lemma {:induction false} RotatedLeft<T>(m: Memory<T>, c: Path<T>, t: Tree<T>, root: T, nil: T)
    requires t.Node? && t.right.Node? && At(m, c, t, root, nil)
    ensures CanRotateLeft(m, t.item, nil) && m[t.item].right == t.right.item
    ensures At(LeftRotation(m, t.item, nil), c, LeftRotated(t), if t.item == root then t.right.item else root, nil)
  {
    var x, y, p := t.item, t.right.item, ParentOf(c);
    LeftPivotLinks(m, t, p, nil);
    assert CanRotateLeft(m, x, nil);
    RotatedLeftBelow(m, t, p, nil);
    LeftRotatedApart(c, t, nil);
    RootOnPath(m, c, x, p, root, nil);
    var m' := LeftRotation(m, x, nil);
    forall n | n in PathItems(c) && n in m
      ensures m'[n] == Rehung(m[n], n, p, x, y)
    {
      LeftRotationCells(m, x, nil, n);
    }
    Regrafted(m, m', c, x, y, p, root, nil);
  }
}
