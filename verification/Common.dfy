/** What several modules share: optional values, machine constants, sequence edits, powers of two. */
module Common {

  datatype Option<+T> = None | Some(value: T)

  // Unsigned 32-bit numbers, and so addresses, are below this.
  const WORD := 0x1_0000_0000

  const PAGE_SIZE := 0x1000

  // ----- Sequence edits -----

  ghost function Inserted<T>(s: seq<T>, i: nat, x: T): (r: seq<T>)
    requires i <= |s|
    ensures |r| == |s| + 1
  {
    s[..i] + [x] + s[i..]
  }

  ghost function Removed<T>(s: seq<T>, i: nat): (r: seq<T>)
    requires i < |s|
    ensures |r| == |s| - 1
  {
    s[..i] + s[i + 1..]
  }

  // ----- Sequences without repetition -----

  ghost predicate NoDup<T>(s: seq<T>) {
    forall i, j | 0 <= i < j < |s| :: s[i] != s[j]
  }

  lemma RemovedElements<T>(s: seq<T>, i: nat)
    requires NoDup(s) && i < |s|
    ensures NoDup(Removed(s, i))
    ensures forall x :: x in Removed(s, i) <==> x in s && x != s[i]
  {
    forall x | x in s && x != s[i]
      ensures x in Removed(s, i)
    {
      var k :| 0 <= k < |s| && s[k] == x;
      assert Removed(s, i)[if k < i then k else k - 1] == x;
    }
  }

  lemma InsertedElements<T>(s: seq<T>, i: nat, x: T)
    requires NoDup(s) && i <= |s|
    ensures NoDup(Inserted(s, i, x)) <==> x !in s
    ensures forall y :: y in Inserted(s, i, x) <==> y in s || y == x
    ensures Elements(Inserted(s, i, x)) == Elements(s) + {x}
  {
    var r := Inserted(s, i, x);
    assert r[i] == x;
    if x in s {
      var k :| 0 <= k < |s| && s[k] == x;
      assert r[if k < i then k else k + 1] == x;
    }
    forall y | y in s
      ensures y in r
    {
      var k :| 0 <= k < |s| && s[k] == y;
      assert r[if k < i then k else k + 1] == y;
    }
  }

  ghost function Elements<T>(s: seq<T>): set<T> {
    set x | x in s
  }

  lemma OneElement<T>(s: seq<T>, x: T)
    requires NoDup(s) && Elements(s) == {x}
    ensures s == [x]
  {
    assert x in Elements(s);
    assert |s| > 1 ==> s[0] != s[1];
    forall k | 0 <= k < |s|
      ensures s[k] == x
    {
      assert s[k] in Elements(s);
    }
  }

  // ----- Powers of two -----

  function Pow2(n: nat): (p: nat)
    ensures p > 0
  {
    if n == 0 then 1 else 2 * Pow2(n - 1)
  }

  lemma {:induction false} Pow2Mono(a: nat, b: nat)
    requires a <= b
    ensures Pow2(a) <= Pow2(b)
    ensures a < b ==> 2 * Pow2(a) <= Pow2(b)
  {
    if a < b {
      Pow2Mono(a, b - 1);
    }
  }

  lemma Pow2Positive(n: nat)
    ensures Pow2(n) > 0
  {
  }

  lemma MulMono(a: nat, b: nat, c: nat)
    ensures a <= b ==> a * c <= b * c
  {
  }

  lemma MulAtLeast(k: int, size: nat)
    requires k >= 1
    ensures k * size >= size
  {
  }

  lemma Unique(n: int, size: nat, q: int, c: nat)
    requires size > 0 && n == q * size + c && c < size
    ensures n % size == c && n / size == q
  {
    var p, e := n / size, n % size;
    assert n == p * size + e;
    assert (p - q) * size == p * size - q * size;
    assert (q - p) * size == q * size - p * size;
    if p > q {
      MulAtLeast(p - q, size);
    } else if p < q {
      MulAtLeast(q - p, size);
    }
  }
}
