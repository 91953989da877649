/** In what order c4a_free joins a block with its neighbours, said of the blocks as they were: every
    join takes the one neighbour of the size reached, and where both sides have one, the block
    before is first and the sides alternate. */
module HeapMerges {
  import opened Common
  import opened HeapBlocks

  // A course of joins: true for one with the block before, false for one with the block after.
  function Befores(w: seq<bool>): (n: nat)
    ensures n <= |w|
  {
    if w == [] then 0 else Befores(w[..|w| - 1]) + if w[|w| - 1] then 1 else 0
  }

  // The first and the last block that are joined in the course w around block i.
  function Lo(i: nat, w: seq<bool>): int {
    i - Befores(w)
  }

  function Hi(i: nat, w: seq<bool>): nat {
    i + |w| - Befores(w)
  }

  ghost predicate FitsBefore(bs: seq<HBlock>, start: nat, lo: int, bucket: nat) {
    && 0 < lo < |bs| && bs[lo - 1].free && bs[lo - 1].bucket == bucket
    && Chunk(start, bs[lo - 1].addr) == Chunk(start, bs[lo].addr)
  }

  ghost predicate FitsAfter(bs: seq<HBlock>, start: nat, lo: int, hi: nat, bucket: nat) {
    && 0 <= lo <= hi && hi + 1 < |bs| && bs[hi + 1].free && bs[hi + 1].bucket == bucket
    && Chunk(start, bs[lo].addr) == Chunk(start, bs[hi + 1].addr)
  }

  // After the joins w, the block before, or the one after, is the next that could be joined.
  ghost predicate GoesBefore(bs: seq<HBlock>, start: nat, i: nat, w: seq<bool>)
    requires i < |bs|
  {
    FitsBefore(bs, start, Lo(i, w), bs[i].bucket + |w|)
  }

  ghost predicate GoesAfter(bs: seq<HBlock>, start: nat, i: nat, w: seq<bool>)
    requires i < |bs|
  {
    FitsAfter(bs, start, Lo(i, w), Hi(i, w), bs[i].bucket + |w|)
  }

  // Whose turn it is after the joins w.
  predicate TurnOfBefore(w: seq<bool>) {
    w == [] || !w[|w| - 1]
  }

  ghost predicate LawfulStep(bs: seq<HBlock>, start: nat, i: nat, w: seq<bool>, before: bool)
    requires i < |bs|
  {
    if before then GoesBefore(bs, start, i, w) && (GoesAfter(bs, start, i, w) ==> TurnOfBefore(w))
    else GoesAfter(bs, start, i, w) && (GoesBefore(bs, start, i, w) ==> !TurnOfBefore(w))
  }

  ghost predicate Lawful(bs: seq<HBlock>, start: nat, i: nat, w: seq<bool>)
    requires i < |bs|
  {
    forall t | 0 <= t < |w| :: LawfulStep(bs, start, i, w[..t], w[t])
  }

  ghost predicate Finished(bs: seq<HBlock>, start: nat, i: nat, w: seq<bool>)
    requires i < |bs|
  {
    !GoesBefore(bs, start, i, w) && !GoesAfter(bs, start, i, w)
  }

  ghost predicate InRange(bs: seq<HBlock>, i: nat, w: seq<bool>) {
    0 <= Lo(i, w) && Hi(i, w) < |bs|
  }

  // The blocks from the first to the last one joined are one free block; all others are as before.
  ghost function Gathered(bs: seq<HBlock>, i: nat, w: seq<bool>): (r: seq<HBlock>)
    requires i < |bs| && InRange(bs, i, w)
    ensures Lo(i, w) < |r| && |r| == |bs| - |w|
  {
    var lo := Lo(i, w);
    bs[..lo] + [HBlock(bs[lo].addr, bs[i].bucket + |w|, true)] + bs[Hi(i, w) + 1..]
  }

  // ----- The program's joins are a lawful course -----

  lemma Onward(w: seq<bool>, before: bool)
    ensures Befores(w + [before]) == Befores(w) + if before then 1 else 0
  {
    assert (w + [before])[..|w|] == w;
  }

  lemma LawfulOnward(bs: seq<HBlock>, start: nat, i: nat, w: seq<bool>, before: bool)
    requires i < |bs| && Lawful(bs, start, i, w) && LawfulStep(bs, start, i, w, before)
    ensures Lawful(bs, start, i, w + [before])
  {
    hide LawfulStep;
    var v := w + [before];
    forall t | 0 <= t < |v|
      ensures LawfulStep(bs, start, i, v[..t], v[t])
    {
      assert v[..t] == w[..t];
      assert t == |w| ==> w[..t] == w;
    }
  }

  lemma JoinBefore(bs: seq<HBlock>, start: nat, i: nat, w: seq<bool>)
    requires i < |bs| && InRange(bs, i, w)
    ensures var g, lo := Gathered(bs, i, w), Lo(i, w);
            CanJoin(g, start, lo - 1) <==> GoesBefore(bs, start, i, w)
    ensures var g, lo := Gathered(bs, i, w), Lo(i, w);
            GoesBefore(bs, start, i, w) ==>
              && InRange(bs, i, w + [true]) && Lo(i, w + [true]) == lo - 1
              && Joined(g, lo - 1) == Gathered(bs, i, w + [true])
  {
    Onward(w, true);
  }

  lemma JoinAfter(bs: seq<HBlock>, start: nat, i: nat, w: seq<bool>)
    requires i < |bs| && InRange(bs, i, w)
    ensures var g, lo := Gathered(bs, i, w), Lo(i, w);
            CanJoin(g, start, lo) <==> GoesAfter(bs, start, i, w)
    ensures var g, lo := Gathered(bs, i, w), Lo(i, w);
            GoesAfter(bs, start, i, w) ==>
              && InRange(bs, i, w + [false]) && Lo(i, w + [false]) == lo
              && Joined(g, lo) == Gathered(bs, i, w + [false])
  {
    Onward(w, false);
  }

  // From the start of a round on, after the joins w.
  lemma {:induction false} CourseOn(bs: seq<HBlock>, start: nat, i: nat, w: seq<bool>) returns (v: seq<bool>)
    requires i < |bs| && InRange(bs, i, w) && Lawful(bs, start, i, w)
    requires GoesAfter(bs, start, i, w) ==> TurnOfBefore(w)
    ensures InRange(bs, i, v) && Lawful(bs, start, i, v) && Finished(bs, start, i, v)
    ensures Coalesced(Gathered(bs, i, w), start, Lo(i, w)) == Gathered(bs, i, v)
    decreases |bs| - |w|
  {
    hide Gathered, InRange, Lo, Hi, Lawful, CanJoin, Joined, GoesBefore, GoesAfter;
    JoinBefore(bs, start, i, w);
    JoinAfter(bs, start, i, w);
    if GoesBefore(bs, start, i, w) {
      LawfulOnward(bs, start, i, w, true);
      var u := w + [true];
      JoinAfter(bs, start, i, u);
      if GoesAfter(bs, start, i, u) {
        LawfulOnward(bs, start, i, u, false);
        v := CourseOn(bs, start, i, u + [false]);
      } else {
        v := CourseOn(bs, start, i, u);
      }
    } else if GoesAfter(bs, start, i, w) {
      LawfulOnward(bs, start, i, w, false);
      v := CourseOn(bs, start, i, w + [false]);
    } else {
      v := w;
    }
  }

  lemma {:induction false} Course(bs: seq<HBlock>, start: nat, i: nat) returns (w: seq<bool>)
    requires i < |bs| && bs[i].free
    ensures InRange(bs, i, w) && Lawful(bs, start, i, w) && Finished(bs, start, i, w)
    ensures Coalesced(bs, start, i) == Gathered(bs, i, w)
  {
    assert Gathered(bs, i, []) == bs;
    w := CourseOn(bs, start, i, []);
  }

  // ... and there is no other.
  lemma {:induction false} OneCourse(bs: seq<HBlock>, start: nat, i: nat, w: seq<bool>, v: seq<bool>)
    requires i < |bs| && Lawful(bs, start, i, w) && Lawful(bs, start, i, v)
    requires Finished(bs, start, i, w) && Finished(bs, start, i, v)
    ensures w == v
  {
    hide Lawful, Finished;
    SameCourse(bs, start, i, w, v, if |w| < |v| then |w| else |v|);
    assert w[..|w|] == w && v[..|v|] == v;
    if |w| < |v| {
      GoesOn(bs, start, i, v, |w|);
    } else if |v| < |w| {
      GoesOn(bs, start, i, w, |v|);
    }
  }

  lemma {:induction false} GoesOn(bs: seq<HBlock>, start: nat, i: nat, w: seq<bool>, t: nat)
    requires i < |bs| && Lawful(bs, start, i, w) && t < |w|
    ensures !Finished(bs, start, i, w[..t])
  {
    hide GoesBefore, GoesAfter;
    assert LawfulStep(bs, start, i, w[..t], w[t]);
  }

  lemma LawfulAt(bs: seq<HBlock>, start: nat, i: nat, w: seq<bool>, t: nat)
    requires i < |bs| && Lawful(bs, start, i, w) && t < |w|
    ensures LawfulStep(bs, start, i, w[..t], w[t]) && w[..t + 1] == w[..t] + [w[t]]
  {
    hide LawfulStep;
  }

  lemma SameStep(bs: seq<HBlock>, start: nat, i: nat, w: seq<bool>, x: bool, y: bool)
    requires i < |bs| && LawfulStep(bs, start, i, w, x) && LawfulStep(bs, start, i, w, y)
    ensures x == y
  {
  }

  lemma {:induction false} SameCourse(bs: seq<HBlock>, start: nat, i: nat, w: seq<bool>, v: seq<bool>, t: nat)
    requires i < |bs| && Lawful(bs, start, i, w) && Lawful(bs, start, i, v) && t <= |w| && t <= |v|
    ensures w[..t] == v[..t]
  {
    if t > 0 {
      hide Lawful, LawfulStep;
      SameCourse(bs, start, i, w, v, t - 1);
      LawfulAt(bs, start, i, w, t - 1);
      LawfulAt(bs, start, i, v, t - 1);
      SameStep(bs, start, i, w[..t - 1], w[t - 1], v[t - 1]);
    }
  }

  // ----- What this means for a block that is given back -----

  ghost function WithFree(bs: seq<HBlock>, i: nat): (f: seq<HBlock>)
    requires i < |bs|
    ensures |f| == |bs| && f[i] == bs[i].(free := true) && forall k | 0 <= k < |bs| && k != i :: f[k] == bs[k]
  {
    bs[i := bs[i].(free := true)]
  }

  // The joined block lies where the blocks of the course lay.
  lemma {:induction false} GatheredSpan(bs: seq<HBlock>, start: nat, end: nat, i: nat, w: seq<bool>)
    requires i < |bs| && InRange(bs, i, w) && Tiled(bs, start, end) && Tiled(Gathered(bs, i, w), start, end)
    ensures var g, lo := Gathered(bs, i, w), Lo(i, w);
            g[lo].free && g[lo].addr == bs[lo].addr && g[lo].End() == bs[Hi(i, w)].End()
  {
    hide Sound;
    var g, lo, hi := Gathered(bs, i, w), Lo(i, w), Hi(i, w);
    if hi + 1 < |bs| {
      assert g[lo + 1] == bs[hi + 1];
    }
  }

  // A free block of r covers everything from one address to another.
  ghost predicate FreeOver(r: seq<HBlock>, from: nat, to: nat) {
    exists j | 0 <= j < |r| :: r[j].free && r[j].addr <= from && to <= r[j].End()
  }

  // The same, and it starts at the first address.
  ghost predicate FreeFrom(r: seq<HBlock>, from: nat, to: nat) {
    exists j | 0 <= j < |r| :: r[j].free && r[j].addr == from && to <= r[j].End()
  }

  // A block before of a greater size is reached when the blocks after the one given back have all
  // the sizes up to its own.
  ghost predicate Reached(bs: seq<HBlock>, start: nat, i: nat)
    requires i < |bs|
  {
    && 0 < i && FitsBefore(bs, start, i, bs[i - 1].bucket) && bs[i - 1].bucket >= bs[i].bucket
    && forall t | 0 <= t < bs[i - 1].bucket - bs[i].bucket :: InLine(bs, start, i, t)
  }

  ghost predicate InLine(bs: seq<HBlock>, start: nat, i: nat, t: nat)
    requires i < |bs|
  {
    FitsAfter(bs, start, i, i + t, bs[i].bucket + t)
  }

  lemma {:induction false} NoneBefore(i: nat, w: seq<bool>, t: nat)
    requires t <= |w| && forall k | 0 <= k < t :: !w[k]
    ensures Befores(w[..t]) == 0 && Lo(i, w[..t]) == i && Hi(i, w[..t]) == i + t
  {
    if t > 0 {
      NoneBefore(i, w, t - 1);
      assert w[..t][..t - 1] == w[..t - 1];
    }
  }

  lemma {:induction false} SomeBefore(w: seq<bool>, t: nat)
    requires t < |w| && w[t]
    ensures Befores(w) > 0
    decreases |w|
  {
    if t < |w| - 1 {
      SomeBefore(w[..|w| - 1], t);
    }
  }

  // If the block before is reached, a lawful course takes it.
  lemma {:induction false} TakenIfReached(bs: seq<HBlock>, start: nat, i: nat, w: seq<bool>, t: nat)
    requires i < |bs| && Lawful(bs, start, i, w) && Finished(bs, start, i, w) && Reached(bs, start, i)
    requires t <= |w| && t <= bs[i - 1].bucket - bs[i].bucket && forall k | 0 <= k < t :: !w[k]
    ensures Befores(w) > 0
    decreases |w| - t
  {
    hide FitsBefore, FitsAfter;
    NoneBefore(i, w, t);
    assert w[..|w|] == w;
    if t < bs[i - 1].bucket - bs[i].bucket { assert InLine(bs, start, i, t); }
    if t < |w| {
      assert LawfulStep(bs, start, i, w[..t], w[t]);
      if w[t] {
        SomeBefore(w, t);
      } else {
        assert t > 0 ==> w[..t][t - 1] == w[t - 1];
        TakenIfReached(bs, start, i, w, t + 1);
      }
    }
  }

  // And only then.
  lemma {:induction false} ReachedIfTaken(bs: seq<HBlock>, start: nat, i: nat, w: seq<bool>, t: nat)
    requires i < |bs| && Lawful(bs, start, i, w) && t < |w| && w[t] && forall k | 0 <= k < t :: !w[k]
    ensures Reached(bs, start, i)
  {
    NoneBefore(i, w, t);
    assert LawfulStep(bs, start, i, w[..t], w[t]);
    forall k | 0 <= k < t
      ensures InLine(bs, start, i, k)
    {
      NoneBefore(i, w, k);
      assert LawfulStep(bs, start, i, w[..k], w[k]);
    }
  }

  lemma {:induction false} FirstBefore(w: seq<bool>) returns (t: nat)
    requires Befores(w) > 0
    ensures t < |w| && w[t] && forall k | 0 <= k < t :: !w[k]
  {
    var u := w[..|w| - 1];
    if Befores(u) > 0 {
      t := FirstBefore(u);
    } else {
      t := |w| - 1;
      forall k | 0 <= k < t
        ensures !w[k]
      {
        if u[k] { SomeBefore(u, k); }
      }
    }
  }

  lemma {:induction false} SomeAfter(w: seq<bool>, t: nat)
    requires t < |w| && !w[t]
    ensures Befores(w) < |w|
    decreases |w|
  {
    if t < |w| - 1 {
      SomeAfter(w[..|w| - 1], t);
    }
  }

  lemma {:induction false} FirstStep(bs: seq<HBlock>, start: nat, i: nat, w: seq<bool>)
    requires i < |bs| && Lawful(bs, start, i, w) && Finished(bs, start, i, w)
    ensures GoesBefore(bs, start, i, []) ==> Befores(w) > 0
    ensures !GoesBefore(bs, start, i, []) && GoesAfter(bs, start, i, []) ==> Befores(w) < |w|
  {
    hide GoesBefore, GoesAfter;
    if w != [] {
      assert w[..0] == [];
      assert LawfulStep(bs, start, i, w[..0], w[0]);
      if w[0] { SomeBefore(w, 0); } else { SomeAfter(w, 0); }
    }
  }

  lemma {:induction false} BeforeExactly(bs: seq<HBlock>, start: nat, i: nat, w: seq<bool>)
    requires i < |bs| && Lawful(bs, start, i, w) && Finished(bs, start, i, w)
    ensures Befores(w) > 0 <==> Reached(bs, start, i)
  {
    hide Lawful, Finished;
    if Befores(w) > 0 {
      var t := FirstBefore(w);
      ReachedIfTaken(bs, start, i, w, t);
    } else if Reached(bs, start, i) {
      TakenIfReached(bs, start, i, w, 0);
    }
  }

  // No block starts inside another.
  lemma {:induction false} NoneInside(r: seq<HBlock>, start: nat, end: nat, j: nat, a: nat, to: nat)
    requires Tiled(r, start, end) && j < |r| && r[j].addr < a < r[j].End()
    ensures !FreeFrom(r, a, to)
  {
    hide Tiled;
    forall k | 0 <= k < |r| && k != j
      ensures r[k].addr != a
    {
      if k < j { AddressOrder(r, start, end, k, j); } else { AddressOrder(r, start, end, j, k); }
    }
  }

  lemma {:induction false} InOrderFrom(bs: seq<HBlock>, start: nat, end: nat, i: nat, j: nat)
    requires Tiled(bs, start, end) && i <= j < |bs|
    ensures bs[i].addr <= bs[j].addr && bs[i].End() <= bs[j].End()
    ensures i < j ==> bs[i].End() <= bs[j].addr < bs[j].End()
  {
    if i < j {
      AddressOrder(bs, start, end, i, j);
    }
  }

  // One free block covers exactly the blocks of the course.
  lemma {:induction false} FreedCovers(bs: seq<HBlock>, start: nat, end: nat, i: nat) returns (w: seq<bool>, lo: nat, hi: nat)
    requires Tiled(bs, start, end) && Maximal(bs, start) && i < |bs| && !bs[i].free
    ensures var f := WithFree(bs, i);
            Tiled(f, start, end) && Lawful(f, start, i, w) && Finished(f, start, i, w)
    ensures lo == Lo(i, w) <= i <= hi == Hi(i, w) < |bs|
    ensures var r := Freed(bs, start, i);
            && Tiled(r, start, end) && lo < |r| && r[lo].free
            && r[lo].addr == bs[lo].addr && r[lo].End() == bs[hi].End()
  {
    var f := WithFree(bs, i);
    FlagTiles(bs, start, end, i, true);
    FreedKeeps(bs, start, end, i);
    hide Coalesced, Tiled, Maximal, Lawful, Finished, Gathered;
    w := Course(f, start, i);
    GatheredSpan(f, start, end, i, w);
    lo, hi := Lo(i, w), Hi(i, w);
  }

  lemma {:induction false} TurnsFirst(bs: seq<HBlock>, start: nat, i: nat)
    requires i < |bs|
    ensures CanJoin(WithFree(bs, i), start, i - 1) <==> GoesBefore(WithFree(bs, i), start, i, [])
    ensures CanJoin(WithFree(bs, i), start, i) <==> GoesAfter(WithFree(bs, i), start, i, [])
  {
    var f := WithFree(bs, i);
    assert Gathered(f, i, []) == f;
    JoinBefore(f, start, i, []);
    JoinAfter(f, start, i, []);
  }

  // What r holds when block i of bs has been given back: a free block that takes in the block
  // before if that can be joined, else the one after if that can be; and it starts at the block
  // given back if and only if no block before is reached.
  ghost predicate Absorbs(bs: seq<HBlock>, start: nat, i: nat, r: seq<HBlock>)
    requires i < |bs|
  {
    var f := WithFree(bs, i);
    && (CanJoin(f, start, i - 1) ==> FreeOver(r, bs[i - 1].addr, bs[i].End()))
    && (!CanJoin(f, start, i - 1) && CanJoin(f, start, i) ==> FreeOver(r, bs[i].addr, bs[i + 1].End()))
    && (FreeFrom(r, bs[i].addr, bs[i].End()) <==> !Reached(f, start, i))
  }

  lemma {:induction false} FreedAbsorbs(bs: seq<HBlock>, start: nat, end: nat, i: nat)
    requires Tiled(bs, start, end) && Maximal(bs, start) && i < |bs| && !bs[i].free
    ensures Absorbs(bs, start, i, Freed(bs, start, i))
  {
    hide Tiled, Maximal, Freed, Reached, CanJoin;
    FreedReaches(bs, start, end, i);
    FreedStarts(bs, start, end, i);
  }

  lemma {:induction false} FreedReaches(bs: seq<HBlock>, start: nat, end: nat, i: nat)
    requires Tiled(bs, start, end) && Maximal(bs, start) && i < |bs| && !bs[i].free
    ensures var r, f := Freed(bs, start, i), WithFree(bs, i);
            && (CanJoin(f, start, i - 1) ==> FreeOver(r, bs[i - 1].addr, bs[i].End()))
            && (!CanJoin(f, start, i - 1) && CanJoin(f, start, i) ==> FreeOver(r, bs[i].addr, bs[i + 1].End()))
  {
    hide Freed, Maximal, Tiled, Sound, Lawful, Finished, GoesBefore, GoesAfter;
    var r, f := Freed(bs, start, i), WithFree(bs, i);
    var w, lo, hi := FreedCovers(bs, start, end, i);
    FirstStep(f, start, i, w);
    TurnsFirst(bs, start, i);
    InOrderFrom(bs, start, end, lo, i);
    InOrderFrom(bs, start, end, i, hi);
    if CanJoin(f, start, i - 1) {
      InOrderFrom(bs, start, end, lo, i - 1);
    } else if CanJoin(f, start, i) {
      InOrderFrom(bs, start, end, i + 1, hi);
    }
  }

  lemma {:induction false} FreedStarts(bs: seq<HBlock>, start: nat, end: nat, i: nat)
    requires Tiled(bs, start, end) && Maximal(bs, start) && i < |bs| && !bs[i].free
    ensures FreeFrom(Freed(bs, start, i), bs[i].addr, bs[i].End()) <==> !Reached(WithFree(bs, i), start, i)
  {
    hide Freed, Maximal, Tiled, Sound, Lawful, Finished, Reached;
    var r := Freed(bs, start, i);
    var w, lo, hi := FreedCovers(bs, start, end, i);
    BeforeExactly(WithFree(bs, i), start, i, w);
    InOrderFrom(bs, start, end, lo, i);
    InOrderFrom(bs, start, end, i, hi);
    if lo < i {
      assert bs[i].addr < bs[i].End();
      NoneInside(r, start, end, lo, bs[i].addr, bs[i].End());
    }
  }

  // Of two neighbours of the same size the one before is joined.
  lemma BeforeFirst(s: nat)
    ensures var bs := [HBlock(s, 5, true), HBlock(s + 32, 5, false), HBlock(s + 64, 5, true), HBlock(s + 96, 5, false)];
            Freed(bs, s, 1) == [HBlock(s, 6, true), HBlock(s + 64, 5, true), HBlock(s + 96, 5, false)]
  {
    var bs := [HBlock(s, 5, true), HBlock(s + 32, 5, false), HBlock(s + 64, 5, true), HBlock(s + 96, 5, false)];
    var c := [HBlock(s, 6, true), HBlock(s + 64, 5, true), HBlock(s + 96, 5, false)];
    var f := bs[1 := bs[1].(free := true)];
    assert CanJoin(f, s, 0);
    assert Joined(f, 0) == c;
    assert !CanJoin(c, s, 0);
    assert Coalesced(c, s, 0) == c;
  }

  // A block joined with the one after may then fit the one before, and start there.
  lemma AfterThenBefore(s: nat)
    ensures var bs := [HBlock(s, 6, true), HBlock(s + 64, 5, false), HBlock(s + 96, 5, true)];
            && !CanJoin(WithFree(bs, 1), s, 0) && CanJoin(WithFree(bs, 1), s, 1)
            && Freed(bs, s, 1) == [HBlock(s, 7, true)]
  {
    var bs := [HBlock(s, 6, true), HBlock(s + 64, 5, false), HBlock(s + 96, 5, true)];
    var f := bs[1 := bs[1].(free := true)];
    var c := [HBlock(s, 6, true), HBlock(s + 64, 6, true)];
    assert CanJoin(f, s, 1) && !CanJoin(f, s, 0);
    assert Joined(f, 1) == c;
    assert CanJoin(c, s, 0);
    var d := [HBlock(s, 7, true)];
    assert Joined(c, 0) == d && !CanJoin(d, s, 0);
    assert Coalesced(d, s, 0) == d;
    assert Coalesced(c, s, 1) == d;
  }
}
