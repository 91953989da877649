/** Balanced trees as values: the shape that andtree.c keeps in its nodes, the rebalancing
    steps of andtree_skew, andtree_split and the two repair loops as functions on shapes, and
    the proof that both repair climbs restore the full Andersson invariant.

    A tree item is whatever identifies a node; Nil stands for the shared sentinel at level 0. */
module AATree {
  import opened Common

  datatype Tree<T> = Nil | Node(left: Tree<T>, level: nat, item: T, right: Tree<T>)

  function Level<T>(t: Tree<T>): nat {
    if t.Nil? then 0 else t.level
  }

  function Left<T>(t: Tree<T>): Tree<T> {
    if t.Nil? then Nil else t.left
  }

  function Right<T>(t: Tree<T>): Tree<T> {
    if t.Nil? then Nil else t.right
  }

  function InOrder<T>(t: Tree<T>): seq<T> {
    if t.Nil? then [] else InOrder(t.left) + [t.item] + InOrder(t.right)
  }

  // ----- The Andersson invariant, with the sentinel counted as level 0 -----

  predicate LevelsFit<T>(t: Tree<T>) {
    t.Node? ==>
      && t.level == Level(t.left) + 1
      && (Level(t.right) == t.level || Level(t.right) + 1 == t.level)
      && Level(Right(t.right)) < t.level
  }

  predicate AA<T>(t: Tree<T>) {
    LevelsFit(t) && (t.Node? ==> AA(t.left) && AA(t.right))
  }

  // ----- Rebalancing steps. Like the C code, skew and split recurse only after rotating. -----

  function Skew<T>(t: Tree<T>): Tree<T>
    decreases Left(t)
  {
    if t.Node? && t.left.Node? && t.left.level == t.level then
      Node(t.left.left, t.left.level, t.left.item, Skew(Node(t.left.right, t.level, t.item, t.right)))
    else t
  }

  function Split<T>(t: Tree<T>): Tree<T> {
    if t.Node? && t.right.Node? && t.level == Level(t.right.right) then
      Node(Node(t.left, t.level, t.item, t.right.left), t.right.level + 1, t.right.item, Split(t.right.right))
    else t
  }

  function InsertStep<T>(t: Tree<T>): Tree<T> {
    Split(Skew(t))
  }

  predicate MissingLevel<T>(t: Tree<T>) {
    t.Node? && (Level(t.left) < t.level - 1 || Level(t.right) < t.level - 1)
  }

  // The level drop and the clamp of the right child's level.
  function Lowered<T>(t: Tree<T>): Tree<T>
    requires MissingLevel(t)
  {
    var lv := t.level - 1;
    t.(level := lv, right := if Level(t.right) > lv then t.right.(level := lv) else t.right)
  }

  // One round of the removal loop: skew, split, split the left child, skew again.
  function RemoveStep<T>(t: Tree<T>): Tree<T> {
    if MissingLevel(t) then
      var s := Split(Skew(Lowered(t)));
      Skew(s.(left := Split(s.left)))
    else t
  }

  lemma {:induction false} StepsKeepNode<T>(t: Tree<T>)
    ensures t.Node? ==> Skew(t).Node? && Split(t).Node? && RemoveStep(t).Node?
  {
  }

  // ----- What a step may do to the subtree it is applied to -----

  predicate RightLight<T>(t: Tree<T>) {
    t.Nil? || Level(t.right) < t.level
  }

  predicate Grown<T>(before: Tree<T>, after: Tree<T>) {
    && AA(after)
    && (Level(after) == Level(before) || (Level(after) == Level(before) + 1 && RightLight(after)))
    && (before.Node? && RightLight(before) ==> Level(after) == Level(before))
  }

  predicate Shrunk<T>(before: Tree<T>, after: Tree<T>) {
    && AA(after)
    && (Level(after) == Level(before) || Level(after) + 1 == Level(before))
    && (RightLight(before) && Level(after) == Level(before) ==> RightLight(after))
  }

  lemma {:induction false} StepsKeepAA<T>(t: Tree<T>)
    requires AA(t)
    ensures Skew(t) == t && Split(t) == t
  {
  }

  lemma {:induction false} GrownLeft<T>(t: Tree<T>, l: Tree<T>)
    requires t.Node? && AA(t) && Grown(t.left, l)
    ensures Grown(t, InsertStep(t.(left := l)))
  {
    var k, x, b := t.level, t.item, t.right;
    assert AA(b);
    if Level(l) == k {
      assert AA(l.left) && AA(l.right);
      assert Skew(Node(l.right, k, x, b)) == Node(l.right, k, x, b);
      assert Skew(t.(left := l)) == Node(l.left, k, l.item, Node(l.right, k, x, b));
      StepsKeepAA(b);
    }
  }

  lemma {:induction false} GrownRight<T>(t: Tree<T>, r: Tree<T>)
    requires t.Node? && AA(t) && Grown(t.right, r)
    ensures Grown(t, InsertStep(t.(right := r)))
  {
    assert AA(t.left);
    assert Skew(t.(right := r)) == t.(right := r);
    if Level(Right(r)) == t.level {
      assert AA(r.left) && AA(r.right);
      StepsKeepAA(r.right);
    }
  }

  lemma {:induction false} ShrunkLeft<T>(t: Tree<T>, l: Tree<T>)
    requires t.Node? && AA(t) && Shrunk(t.left, l)
    ensures Shrunk(t, RemoveStep(t.(left := l)))
  {
    assert AA(t.right);
    if Level(l) < t.level - 1 {
      if Level(t.right) == t.level {
        ShrunkLeftHeavy(t, l);
      } else {
        ShrunkLeftLight(t, l);
      }
    }
  }

  // The case behind the second split and skew: after the clamp the right child has a left
  // child at its own level, which the first skew does not reach.
  lemma {:induction false} ShrunkLeftHeavy<T>(t: Tree<T>, l: Tree<T>)
    requires t.Node? && AA(t) && Shrunk(t.left, l)
    requires Level(l) < t.level - 1 && Level(t.right) == t.level
    ensures Shrunk(t, RemoveStep(t.(left := l)))
  {
    var k, x, b := t.level, t.item, t.right;
    assert AA(b) && AA(b.left) && AA(b.right);
    var low := Lowered(t.(left := l));
    assert low == Node(l, k - 1, x, b.(level := k - 1));
    assert Skew(low) == low;
    StepsKeepAA(b.right);
    assert Split(low) == Node(Node(l, k - 1, x, b.left), k, b.item, b.right);
    var m := b.left;
    if Level(m.right) == k - 1 {
      assert AA(m.left) && AA(m.right);
      StepsKeepAA(m.right);
      assert Split(Node(l, k - 1, x, m)) == Node(Node(l, k - 1, x, m.left), k, m.item, m.right);
      assert Skew(Node(m.right, k, b.item, b.right)) == Node(m.right, k, b.item, b.right);
    }
  }

  lemma {:induction false} ShrunkLeftLight<T>(t: Tree<T>, l: Tree<T>)
    requires t.Node? && AA(t) && Shrunk(t.left, l)
    requires Level(l) < t.level - 1 && Level(t.right) < t.level
    ensures Shrunk(t, RemoveStep(t.(left := l)))
  {
    var k, x, b := t.level, t.item, t.right;
    assert AA(b) && AA(b.left) && AA(b.right);
    var low := Lowered(t.(left := l));
    assert low == Node(l, k - 1, x, b);
    assert Skew(low) == low;
    StepsKeepAA(l);
    StepsKeepAA(b.right);
  }

  lemma {:induction false} ShrunkRight<T>(t: Tree<T>, r: Tree<T>)
    requires t.Node? && AA(t) && Shrunk(t.right, r)
    ensures Shrunk(t, RemoveStep(t.(right := r)))
  {
    assert AA(t.left);
    if Level(r) < t.level - 1 {
      if Level(t.left.right) == t.level - 1 {
        ShrunkRightHeavy(t, r);
      } else {
        ShrunkRightLight(t, r);
      }
    }
  }

  lemma {:induction false} ShrunkRightHeavy<T>(t: Tree<T>, r: Tree<T>)
    requires t.Node? && AA(t) && Shrunk(t.right, r)
    requires Level(r) < t.level - 1 && Level(Right(t.left)) == t.level - 1
    ensures Shrunk(t, RemoveStep(t.(right := r)))
  {
    var k, x, a := t.level, t.item, t.left;
    assert AA(a) && AA(a.left) && AA(a.right);
    var m := a.right;
    assert AA(m.left) && AA(m.right);
    var n := Node(m.right, k - 1, x, r);
    StepsKeepAA(n);
    StepsKeepAA(a.left);
    assert Skew(Node(m, k - 1, x, r)) == Node(m.left, k - 1, m.item, n);
    assert Skew(Lowered(t.(right := r))) == Node(a.left, k - 1, a.item, Node(m.left, k - 1, m.item, n));
  }

  lemma {:induction false} ShrunkRightLight<T>(t: Tree<T>, r: Tree<T>)
    requires t.Node? && AA(t) && Shrunk(t.right, r)
    requires Level(r) < t.level - 1 && Level(Right(t.left)) < t.level - 1
    ensures Shrunk(t, RemoveStep(t.(right := r)))
  {
    var k, x, a := t.level, t.item, t.left;
    assert AA(a) && AA(a.left) && AA(a.right);
    StepsKeepAA(a.left);
    StepsKeepAA(r);
    assert Skew(Node(a.right, k - 1, x, r)) == Node(a.right, k - 1, x, r);
    assert Skew(Lowered(t.(right := r))) == Node(a.left, k - 1, a.item, Node(a.right, k - 1, x, r));
  }

  // Exactly when the second split and skew are needed: a deletion on the left has taken a level
  // away beside a right child on the node's own level whose inner child leans to the right.
  lemma {:induction false} SecondPairNeededLeft<T>(t: Tree<T>, l: Tree<T>)
    requires t.Node? && AA(t) && Shrunk(t.left, l) && Level(l) < t.level - 1
    ensures MissingLevel(t.(left := l))
    ensures AA(Split(Skew(Lowered(t.(left := l))))) <==>
            !(Level(t.right) == t.level && Level(Right(Left(t.right))) == t.level - 1)
  {
    var k, x, b := t.level, t.item, t.right;
    var low := Lowered(t.(left := l));
    assert AA(b) && AA(b.left) && AA(b.right);
    assert Skew(low) == low;
    if Level(b) == k {
      StepsKeepAA(b.right);
      var m := Node(l, k - 1, x, b.left);
      var s := Node(m, k, b.item, b.right);
      assert Split(low) == s;
      assert AA(s) <==> AA(m);
      assert AA(m) <==> Level(b.left.right) < k - 1;
    } else {
      StepsKeepAA(b.right);
      assert Split(low) == low || Split(low) == Node(Node(l, k - 1, x, b.left), k, b.item, b.right);
    }
  }

  // After a deletion on the right they never are.
  lemma {:induction false} SecondPairNeverNeededRight<T>(t: Tree<T>, r: Tree<T>)
    requires t.Node? && AA(t) && Shrunk(t.right, r) && Level(r) < t.level - 1
    ensures MissingLevel(t.(right := r)) && AA(Split(Skew(Lowered(t.(right := r)))))
  {
    var k, x, a := t.level, t.item, t.left;
    assert AA(a) && AA(a.left) && AA(a.right);
    StepsKeepAA(a.left);
    if Level(a.right) == k - 1 {
      var m := a.right;
      assert AA(m.left) && AA(m.right);
      var n := Node(m.right, k - 1, x, r);
      StepsKeepAA(n);
      assert Skew(Node(m, k - 1, x, r)) == Node(m.left, k - 1, m.item, n);
      assert Skew(Lowered(t.(right := r))) == Node(a.left, k - 1, a.item, Node(m.left, k - 1, m.item, n));
    } else {
      StepsKeepAA(r);
      assert Skew(Node(a.right, k - 1, x, r)) == Node(a.right, k - 1, x, r);
      assert Skew(Lowered(t.(right := r))) == Node(a.left, k - 1, a.item, Node(a.right, k - 1, x, r));
    }
  }

  // ----- The way from a subtree up to the root, as the parent pointers give it -----

  datatype Path<T> =
    | Top
    | LeftOf(level: nat, item: T, right: Tree<T>, up: Path<T>)
    | RightOf(left: Tree<T>, level: nat, item: T, up: Path<T>)

  // The parent's subtree, with t as the child the path says it is.
  function Rejoin<T>(c: Path<T>, t: Tree<T>): Tree<T>
    requires !c.Top?
  {
    match c
    case LeftOf(lv, x, r, _) => Node(t, lv, x, r)
    case RightOf(l, lv, x, _) => Node(l, lv, x, t)
  }

  function Plug<T>(c: Path<T>, t: Tree<T>): Tree<T> {
    if c.Top? then t else Plug(c.up, Rejoin(c, t))
  }

  // The items before and after the subtree at the end of a path.
  function Before<T>(c: Path<T>): seq<T> {
    match c
    case Top => []
    case LeftOf(_, _, _, up) => Before(up)
    case RightOf(l, _, x, up) => Before(up) + InOrder(l) + [x]
  }

  function After<T>(c: Path<T>): seq<T> {
    match c
    case Top => []
    case LeftOf(_, x, r, up) => [x] + InOrder(r) + After(up)
    case RightOf(_, _, _, up) => After(up)
  }

  lemma {:induction false} PlugInOrder<T>(c: Path<T>, t: Tree<T>)
    ensures InOrder(Plug(c, t)) == Before(c) + InOrder(t) + After(c)
    decreases c
  {
    if !c.Top? {
      PlugInOrder(c.up, Rejoin(c, t));
      RejoinInOrder(c, t);
    }
  }

  lemma {:induction false} RejoinInOrder<T>(c: Path<T>, t: Tree<T>)
    requires !c.Top?
    ensures Before(c) + InOrder(t) + After(c) == Before(c.up) + InOrder(Rejoin(c, t)) + After(c.up)
  {
    match c {
      case LeftOf(lv, x, r, up) => Regroup(Before(up), InOrder(t), [x], InOrder(r), After(up));
      case RightOf(l, lv, x, up) => Regroup(Before(up), InOrder(l), [x], InOrder(t), After(up));
    }
  }

  lemma Regroup<T>(a: seq<T>, b: seq<T>, x: seq<T>, d: seq<T>, e: seq<T>)
    ensures a + (b + x + d) + e == a + b + (x + d + e)
    ensures a + (b + x + d) + e == (a + b + x) + d + e
  {
  }

  // Where the item at the top of a subtree comes in the whole sequence.
  function Rank<T>(c: Path<T>, t: Tree<T>): nat
    requires t.Node?
  {
    |Before(c)| + |InOrder(t.left)|
  }

  lemma {:induction false} RankInOrder<T>(c: Path<T>, t: Tree<T>)
    requires t.Node?
    ensures var s := InOrder(Plug(c, t));
            && |s| == |Before(c)| + |InOrder(t)| + |After(c)|
            && Rank(c, t) < |Before(c)| + |InOrder(t)| && s[Rank(c, t)] == t.item
  {
    PlugInOrder(c, t);
  }

  lemma {:induction false} PlugAA<T>(c: Path<T>, t: Tree<T>)
    requires AA(Plug(c, t))
    ensures AA(t)
    decreases c
  {
    if !c.Top? {
      PlugAA(c.up, Rejoin(c, t));
    }
  }

  // ----- The two repair climbs -----

  function InsertClimb<T>(c: Path<T>, t: Tree<T>): Tree<T>
    decreases c
  {
    var s := InsertStep(t);
    if c.Top? then s else InsertClimb(c.up, Rejoin(c, s))
  }

  function RemoveClimb<T>(c: Path<T>, t: Tree<T>): Tree<T>
    decreases c
  {
    if c.Top? then t else RemoveClimb(c.up, RemoveStep(Rejoin(c, t)))
  }

  lemma {:induction false} InsertClimbKeepsAA<T>(c: Path<T>, before: Tree<T>, t: Tree<T>)
    requires AA(Plug(c, before)) && Grown(before, InsertStep(t))
    ensures AA(InsertClimb(c, t))
    decreases c
  {
    if !c.Top? {
      var b, s := Rejoin(c, before), InsertStep(t);
      PlugAA(c.up, b);
      if c.LeftOf? { GrownLeft(b, s); } else { GrownRight(b, s); }
      InsertClimbKeepsAA(c.up, b, Rejoin(c, s));
    }
  }

  lemma {:induction false} RemoveClimbKeepsAA<T>(c: Path<T>, before: Tree<T>, after: Tree<T>)
    requires AA(Plug(c, before)) && Shrunk(before, after)
    ensures AA(RemoveClimb(c, after))
    decreases c
  {
    if !c.Top? {
      var b := Rejoin(c, before);
      PlugAA(c.up, b);
      if c.LeftOf? { ShrunkLeft(b, after); } else { ShrunkRight(b, after); }
      RemoveClimbKeepsAA(c.up, b, RemoveStep(Rejoin(c, after)));
    }
  }

  // ----- Rebalancing never changes the in-order sequence -----

  lemma {:induction false} SkewInOrder<T>(t: Tree<T>)
    ensures InOrder(Skew(t)) == InOrder(t)
    decreases Left(t)
  {
    if Skew(t) != t {
      var r := Node(t.left.right, t.level, t.item, t.right);
      SkewInOrder(r);
      var l := t.left;
      assert InOrder(l.left) + [l.item] + (InOrder(l.right) + [t.item] + InOrder(t.right))
          == (InOrder(l.left) + [l.item] + InOrder(l.right)) + [t.item] + InOrder(t.right);
    }
  }

  lemma {:induction false} SplitInOrder<T>(t: Tree<T>)
    ensures InOrder(Split(t)) == InOrder(t)
  {
    if Split(t) != t {
      var r := t.right;
      SplitInOrder(r.right);
      assert (InOrder(t.left) + [t.item] + InOrder(r.left)) + [r.item] + InOrder(r.right)
          == InOrder(t.left) + [t.item] + (InOrder(r.left) + [r.item] + InOrder(r.right));
    }
  }

  lemma {:induction false} RemoveStepInOrder<T>(t: Tree<T>)
    ensures InOrder(RemoveStep(t)) == InOrder(t)
  {
    if MissingLevel(t) {
      var low := Lowered(t);
      SkewInOrder(low);
      SplitInOrder(Skew(low));
      var s := Split(Skew(low));
      SplitInOrder(s.left);
      SkewInOrder(s.(left := Split(s.left)));
    }
  }

  lemma {:induction false} InsertClimbInOrder<T>(c: Path<T>, t: Tree<T>)
    ensures InOrder(InsertClimb(c, t)) == Before(c) + InOrder(t) + After(c)
    decreases c
  {
    var s := InsertStep(t);
    SkewInOrder(t);
    SplitInOrder(Skew(t));
    if !c.Top? {
      InsertClimbInOrder(c.up, Rejoin(c, s));
      PlugInOrder(c.up, Rejoin(c, s));
      PlugInOrder(c, s);
    }
  }

  lemma {:induction false} RemoveClimbInOrder<T>(c: Path<T>, t: Tree<T>)
    ensures InOrder(RemoveClimb(c, t)) == Before(c) + InOrder(t) + After(c)
    decreases c
  {
    if !c.Top? {
      RemoveStepInOrder(Rejoin(c, t));
      RemoveClimbInOrder(c.up, RemoveStep(Rejoin(c, t)));
      PlugInOrder(c.up, Rejoin(c, t));
      PlugInOrder(c, t);
    }
  }

  // ----- A new leaf -----

  lemma {:induction false} LeafInserted<T>(c: Path<T>, x: T)
    requires AA(Plug(c, Nil))
    ensures |Before(c)| <= |InOrder(Plug(c, Nil))|
    ensures var t := InsertClimb(c, Node(Nil, 1, x, Nil));
            AA(t) && InOrder(t) == Inserted(InOrder(Plug(c, Nil)), |Before(c)|, x)
  {
    var leaf := Node(Nil, 1, x, Nil);
    PlugInOrder(c, Nil);
    InsertClimbInOrder(c, leaf);
    InsertClimbKeepsAA(c, Nil, leaf);
    assert InOrder(leaf) == [x];
    var s := InOrder(Plug(c, Nil));
    assert s[..|Before(c)|] == Before(c) && s[|Before(c)|..] == After(c);
  }

  // ----- A leaf less -----

  lemma {:induction false} LeafRemoved<T>(c: Path<T>, leaf: Tree<T>)
    requires leaf.Node? && leaf.left.Nil? && leaf.right.Nil? && AA(Plug(c, leaf))
    ensures |Before(c)| < |InOrder(Plug(c, leaf))| && InOrder(Plug(c, leaf))[|Before(c)|] == leaf.item
    ensures var t := RemoveClimb(c, Nil);
            AA(t) && InOrder(t) == Removed(InOrder(Plug(c, leaf)), |Before(c)|)
  {
    hide AA, RemoveClimb, Plug, InOrder, Before, After, Removed;
    PlugInOrder(c, leaf);
    LeafAlone(leaf);
    MiddleRemoved(Before(c), leaf.item, After(c));
    RemoveClimbInOrder(c, Nil);
    LeafGone(c, leaf);
  }

  lemma LeafAlone<T>(leaf: Tree<T>)
    requires leaf.Node? && leaf.left.Nil? && leaf.right.Nil?
    ensures InOrder(leaf) == [leaf.item] && InOrder<T>(Nil) == []
  {
  }

  lemma LeafGone<T>(c: Path<T>, leaf: Tree<T>)
    requires leaf.Node? && leaf.left.Nil? && leaf.right.Nil? && AA(Plug(c, leaf))
    ensures AA(RemoveClimb(c, Nil))
  {
    PlugAA(c, leaf);
    RemoveClimbKeepsAA(c, leaf, Nil);
  }

  lemma MiddleRemoved<T>(b: seq<T>, x: T, a: seq<T>)
    ensures (b + [x] + a)[|b|] == x && Removed(b + [x] + a, |b|) == b + a
  {
    var s := b + [x] + a;
    assert s[..|b|] == b && s[|b| + 1..] == a;
  }

  // Where the node lies that is taken out when the item at the top of t is deleted: the last
  // one of the left subtree if there is one, else the first one of the right subtree, else t's own.
  function VictimRank<T>(c: Path<T>, t: Tree<T>): int
    requires t.Node?
  {
    if t.left.Node? then Rank(c, t) - 1 else if t.right.Node? then Rank(c, t) + 1 else Rank(c, t)
  }

  lemma {:induction false} ThinEnds<T>(t: Tree<T>)
    requires AA(t) && t.Node?
    ensures t.right.Nil? ==> t.left.Nil?
    ensures t.left.Nil? && t.right.Node? ==> t.right.left.Nil? && t.right.right.Nil?
  {
    assert AA(t.left) && AA(t.right);
    if t.right.Node? {
      assert AA(t.right.left) && AA(t.right.right);
    }
  }

  // ----- How deep a search can go -----

  function Depth<T>(t: Tree<T>): nat {
    if t.Nil? then 0 else 1 + if Depth(t.left) > Depth(t.right) then Depth(t.left) else Depth(t.right)
  }

  lemma {:induction false} DepthBound<T>(t: Tree<T>)
    requires AA(t)
    ensures Depth(t) <= 2 * Level(t)
    ensures t.Node? && RightLight(t) ==> Depth(t) < 2 * Level(t)
  {
    if t.Node? {
      DepthBound(t.left);
      DepthBound(t.right);
    }
  }

  lemma {:induction false} SizeBound<T>(t: Tree<T>)
    requires AA(t)
    ensures Pow2(Level(t)) <= |InOrder(t)| + 1
  {
    if t.Node? {
      SizeBound(t.left);
      SizeBound(t.right);
    }
  }
}
