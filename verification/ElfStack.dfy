/** elf.c and crt0.c: the first stack page of a new process, written through one mapping of the
    page and read through another. */
module ElfStack {
  import opened Common
  import opened Bytes

  const STACK_SIZE := 0x1000
  const STACK_OFFSET := 0xfe0
  const FROM_STACK := 0xda000000
  const TO_STACK := 0xa0000000
  const INIT_MAGIC := 0x10adab1e

  // What a page of memory holds.
  type Page = m: seq<Byte> | |m| == STACK_SIZE witness seq(STACK_SIZE, _ => 0)

  // ----- Reading the page -----

  // The bytes up to a zero byte.
  function StringAt(m: Page, at: nat): seq<Byte>
    decreases STACK_SIZE - at
  {
    if at >= STACK_SIZE || m[at] == 0 then [] else [m[at]] + StringAt(m, at + 1)
  }

  // The strings that a null-terminated array of pointers names, pointers being addresses in the
  // new process.
  function StringsAt(m: Page, at: nat): seq<seq<Byte>>
    decreases STACK_SIZE - at
  {
    var p := WordAt(m, at);
    if at >= STACK_SIZE || p == 0 then []
    else [if p >= TO_STACK then StringAt(m, p - TO_STACK) else []] + StringsAt(m, at + 4)
  }

  /** What _start finds with the stack pointer at a given address. */
  datatype Start = Start(nameserver: nat, args: seq<seq<Byte>>, env: seq<seq<Byte>>, magic: nat)

  function StartAt(m: Page, sp: nat): Start
    requires sp >= TO_STACK
  {
    var at := sp - TO_STACK;
    var args, env := WordAt(m, at + 8), WordAt(m, at + 12);
    Start(WordAt(m, at + 4),
          if args >= TO_STACK then StringsAt(m, args - TO_STACK) else [],
          if env >= TO_STACK then StringsAt(m, env - TO_STACK) else [],
          WordAt(m, at + 16))
  }

  // ----- What is where -----

  // A C string holds no zero byte.
  predicate CString(s: seq<Byte>) {
    forall i | 0 <= i < |s| :: s[i] != 0
  }

  ghost predicate HasString(m: Page, at: nat, s: seq<Byte>) {
    at + |s| < STACK_SIZE && m[at..at + |s|] == s && m[at + |s|] == 0
  }

  // Pointers to the strings from the k-th on, then a zero word.
  ghost predicate HasPointers(m: Page, at: nat, ps: seq<nat>, k: nat) {
    && at + 4 * (|ps| - k) + 4 <= STACK_SIZE && k <= |ps|
    && WordAt(m, at + 4 * (|ps| - k)) == 0
    && forall i | k <= i < |ps| :: WordAt(m, at + 4 * (i - k)) == ps[i]
  }

  ghost predicate PointsTo(m: Page, low: nat, p: nat, s: seq<Byte>) {
    p >= TO_STACK + low && HasString(m, p - TO_STACK, s)
  }

  // What lies at or above low is the same.
  ghost predicate SameFrom(m: Page, n: Page, low: nat) {
    forall i | low <= i < STACK_SIZE :: m[i] == n[i]
  }

  lemma WordFrame(m: Page, n: Page, low: nat, at: nat)
    requires SameFrom(m, n, low) && low <= at
    ensures WordAt(m, at) == WordAt(n, at)
  {
  }

  lemma StringFrame(m: Page, n: Page, low: nat, at: nat, s: seq<Byte>)
    requires SameFrom(m, n, low) && low <= at && HasString(m, at, s)
    ensures HasString(n, at, s)
  {
    assert n[at..at + |s|] == m[at..at + |s|];
  }

  lemma {:induction false} StringsFrame(m: Page, n: Page, low: nat, at: nat, ps: seq<nat>, ss: seq<seq<Byte>>)
    requires SameFrom(m, n, low) && low <= at && HasPointers(m, at, ps, 0) && |ps| == |ss|
    requires forall i | 0 <= i < |ps| :: PointsTo(m, low, ps[i], ss[i])
    ensures HasPointers(n, at, ps, 0)
    ensures forall i | 0 <= i < |ps| :: PointsTo(n, low, ps[i], ss[i])
  {
    hide HasString, WordAt;
    WordFrame(m, n, low, at + 4 * |ps|);
    forall i | 0 <= i < |ps|
      ensures WordAt(n, at + 4 * i) == ps[i] && PointsTo(n, low, ps[i], ss[i])
    {
      WordFrame(m, n, low, at + 4 * (i - 0));
      StringFrame(m, n, low, ps[i] - TO_STACK, ss[i]);
    }
  }

  lemma {:induction false} ReadsString(m: Page, at: nat, s: seq<Byte>)
    requires HasString(m, at, s) && CString(s)
    ensures StringAt(m, at) == s
    decreases |s|
  {
    if s != [] {
      assert m[at] == m[at..at + |s|][0] == s[0];
      assert m[at + 1..at + 1 + |s[1..]|] == m[at..at + |s|][1..];
      ReadsString(m, at + 1, s[1..]);
    }
  }

  lemma {:induction false} ReadsStrings(m: Page, low: nat, at: nat, ps: seq<nat>, ss: seq<seq<Byte>>, k: nat)
    requires HasPointers(m, at, ps, k) && |ps| == |ss|
    requires forall i | 0 <= i < |ps| :: PointsTo(m, low, ps[i], ss[i]) && CString(ss[i])
    ensures StringsAt(m, at) == ss[k..]
    decreases |ps| - k
  {
    hide HasString, WordAt, StringAt, CString;
    if k < |ps| {
      assert WordAt(m, at + 4 * (k - k)) == ps[k];
      forall i | k + 1 <= i < |ps|
        ensures WordAt(m, at + 4 + 4 * (i - (k + 1))) == ps[i]
      {
        assert at + 4 + 4 * (i - (k + 1)) == at + 4 * (i - k);
      }
      ReadsStrings(m, low, at + 4, ps, ss, k + 1);
      ReadsString(m, ps[k] - TO_STACK, ss[k]);
    }
  }

  // The bytes a string list takes: the strings, the pointers and the zero word.
  ghost function ListSize(ss: seq<seq<Byte>>): nat {
    StringsSize(ss) + 4 * |ss| + 4
  }

  ghost function StringsSize(ss: seq<seq<Byte>>): nat {
    if ss == [] then 0 else StringsSize(ss[..|ss| - 1]) + |ss[|ss| - 1]| + 1
  }

  lemma {:induction false} StringsSizeGrows(ss: seq<seq<Byte>>, k: nat)
    requires k <= |ss|
    ensures StringsSize(ss[..k]) <= StringsSize(ss)
    decreases |ss| - k
  {
    if k < |ss| {
      assert ss[..k + 1][..k] == ss[..k];
      StringsSizeGrows(ss, k + 1);
    } else {
      assert ss[..k] == ss;
    }
  }

  // The list of strings ss is at address a, all of it at or above low.
  ghost predicate HasList(m: Page, low: nat, a: nat, ss: seq<seq<Byte>>) {
    exists ps: seq<nat> :: |ps| == |ss| && a >= TO_STACK + low && HasPointers(m, a - TO_STACK, ps, 0)
                           && forall i | 0 <= i < |ps| :: PointsTo(m, low, ps[i], ss[i])
  }

  lemma {:induction false} ListFrame(m: Page, n: Page, low: nat, a: nat, ss: seq<seq<Byte>>)
    requires SameFrom(m, n, low) && HasList(m, low, a, ss)
    ensures HasList(n, low, a, ss)
  {
    var ps: seq<nat> :| |ps| == |ss| && a >= TO_STACK + low && HasPointers(m, a - TO_STACK, ps, 0)
                        && forall i | 0 <= i < |ps| :: PointsTo(m, low, ps[i], ss[i]);
    StringsFrame(m, n, low, a - TO_STACK, ps, ss);
  }

  // A C array of pointers to the strings, in the new process's addresses and ended by a null pointer.
  ghost predicate ArrayAt(m: Page, a: nat, ss: seq<seq<Byte>>) {
    && a >= TO_STACK && a - TO_STACK + 4 * |ss| + 4 <= STACK_SIZE
    && WordAt(m, a - TO_STACK + 4 * |ss|) == 0
    && forall i | 0 <= i < |ss| :: PointerAt(m, a - TO_STACK + 4 * i, ss[i])
  }

  // The word at an offset is the address of the bytes of s, with a zero byte after them.
  ghost predicate PointerAt(m: Page, at: nat, s: seq<Byte>) {
    var p := WordAt(m, at);
    && p >= TO_STACK && p - TO_STACK + |s| < STACK_SIZE
    && m[p - TO_STACK..p - TO_STACK + |s|] == s && m[p - TO_STACK + |s|] == 0
  }

  lemma PointsAt(m: Page, low: nat, at: nat, p: nat, s: seq<Byte>)
    requires WordAt(m, at) == p && PointsTo(m, low, p, s)
    ensures PointerAt(m, at, s)
  {
    hide WordAt;
  }

  lemma {:induction false} ListIsArray(m: Page, low: nat, a: nat, ss: seq<seq<Byte>>)
    requires HasList(m, low, a, ss)
    ensures ArrayAt(m, a, ss)
  {
    var ps: seq<nat> :| |ps| == |ss| && a >= TO_STACK + low && HasPointers(m, a - TO_STACK, ps, 0)
                        && forall i | 0 <= i < |ps| :: PointsTo(m, low, ps[i], ss[i]);
    hide WordAt, PointsTo, PointerAt;
    forall i | 0 <= i < |ss|
      ensures PointerAt(m, a - TO_STACK + 4 * i, ss[i])
    {
      assert WordAt(m, a - TO_STACK + 4 * (i - 0)) == ps[i];
      PointsAt(m, low, a - TO_STACK + 4 * i, ps[i], ss[i]);
    }
  }

  lemma {:induction false} ReadsList(m: Page, low: nat, a: nat, ss: seq<seq<Byte>>)
    requires HasList(m, low, a, ss) && forall i | 0 <= i < |ss| :: CString(ss[i])
    ensures a >= TO_STACK && StringsAt(m, a - TO_STACK) == ss
  {
    var ps: seq<nat> :| |ps| == |ss| && a >= TO_STACK + low && HasPointers(m, a - TO_STACK, ps, 0)
                        && forall i | 0 <= i < |ps| :: PointsTo(m, low, ps[i], ss[i]);
    ReadsStrings(m, low, a - TO_STACK, ps, ss, 0);
    assert ss[0..] == ss;
  }

  lemma WordBytes(value: nat)
    requires value < WORD
    ensures value == value % 0x100 + 0x100 * (value / 0x100 % 0x100) + 0x1_0000 * (value / 0x1_0000 % 0x100)
                     + 0x100_0000 * (value / 0x100_0000 % 0x100)
  {
    var a, b, c := value / 0x100, value / 0x1_0000, value / 0x100_0000;
    assert b == a / 0x100;
    assert c == b / 0x100;
    assert c == c % 0x100;
    assert value == 0x100 * a + value % 0x100;
    assert a == 0x100 * b + a % 0x100;
    assert b == 0x100 * c + b % 0x100;
  }

  // Pushing more leaves what the pointers lead to.
  lemma {:induction false} PointersStay(m: Page, n: Page, low: nat, lower: nat, ps: seq<nat>, ss: seq<seq<Byte>>)
    requires SameFrom(m, n, low) && lower <= low && |ps| <= |ss|
    requires forall i | 0 <= i < |ps| :: PointsTo(m, low, ps[i], ss[i])
    ensures forall i | 0 <= i < |ps| :: PointsTo(n, lower, ps[i], ss[i])
  {
    hide HasString;
    forall i | 0 <= i < |ps|
      ensures PointsTo(n, lower, ps[i], ss[i])
    {
      StringFrame(m, n, low, ps[i] - TO_STACK, ss[i]);
    }
  }

  lemma PointerSmall(m: Page, low: nat, p: nat, s: seq<Byte>)
    requires PointsTo(m, low, p, s)
    ensures p < WORD
  {
  }

  // The zero word alone is the end of the pointers.
  lemma NoPointers(m: Page, at: nat, ps: seq<nat>)
    requires at + 4 <= STACK_SIZE && WordAt(m, at) == 0
    ensures HasPointers(m, at, ps, |ps|)
  {
  }

  lemma {:induction false} OnePointer(m: Page, n: Page, low: nat, ps: seq<nat>, k: nat)
    requires 0 < k <= |ps| && low >= 4 && SameFrom(m, n, low) && HasPointers(m, low, ps, k) && WordAt(n, low - 4) == ps[k - 1]
    ensures HasPointers(n, low - 4, ps, k - 1)
  {
    hide WordAt;
    WordFrame(m, n, low, low + 4 * (|ps| - k));
    forall i | k - 1 <= i < |ps|
      ensures WordAt(n, low - 4 + 4 * (i - (k - 1))) == ps[i]
    {
      if i >= k {
        WordFrame(m, n, low, low + 4 * (i - k));
        assert low - 4 + 4 * (i - (k - 1)) == low + 4 * (i - k);
      }
    }
    assert low - 4 + 4 * (|ps| - (k - 1)) == low + 4 * (|ps| - k);
  }

  lemma ListHere(m: Page, low: nat, ps: seq<nat>, ss: seq<seq<Byte>>)
    requires |ps| == |ss| && HasPointers(m, low, ps, 0)
    requires forall i | 0 <= i < |ps| :: PointsTo(m, low, ps[i], ss[i])
    ensures HasList(m, low, TO_STACK + low, ss)
  {
    assert TO_STACK + low - TO_STACK == low;
  }

  /** The page while it is filled from the top down. from and to are the same place as the parent
      and as the new process see it. */
  class Stack {
    const page: array<Byte>
    var from: nat
    var to: nat

    ghost predicate Valid()
      reads this
    {
      page.Length == STACK_SIZE && FROM_STACK <= from < FROM_STACK + STACK_SIZE && to == from - FROM_STACK + TO_STACK
    }

    function Memory(): Page
      requires page.Length == STACK_SIZE
      reads page
    {
      page[..]
    }

    ghost function Low(): nat
      requires Valid()
      reads this
    {
      from - FROM_STACK
    }

    // The set-up in elf_load_full
    constructor ()
      ensures Valid() && Low() == STACK_OFFSET && fresh(page)
    {
      page := new Byte[STACK_SIZE](_ => 0);
      from, to := FROM_STACK + STACK_OFFSET, TO_STACK + STACK_OFFSET;
    }

    // elf_push_arg
    method PushArg(value: nat) returns (at: nat)
      requires Valid() && Low() >= 4 && value < WORD
      modifies this, page
      ensures Valid() && Low() == old(Low()) - 4 && at == to
      ensures WordAt(Memory(), Low()) == value
      ensures Memory()[Low()] == value % 0x100 && Memory()[Low() + 1] == value / 0x100 % 0x100
      ensures Memory()[Low() + 2] == value / 0x1_0000 % 0x100 && Memory()[Low() + 3] == value / 0x100_0000 % 0x100
      ensures SameFrom(old(Memory()), Memory(), old(Low()))
    {
      assert Low() == from - FROM_STACK;
      from, to := from - 4, to - 4;
      var i := from - FROM_STACK;
      page[i] := value % 0x100;
      page[i + 1] := value / 0x100 % 0x100;
      page[i + 2] := value / 0x1_0000 % 0x100;
      page[i + 3] := value / 0x100_0000 % 0x100;
      WordBytes(value);
      at := to;
    }

    // elf_push_str, with strlen and strcpy
    method PushStr(str: seq<Byte>) returns (at: nat)
      requires Valid() && Low() >= |str| + 1
      modifies this, page
      ensures Valid() && Low() == old(Low()) - (|str| + 1) && at == to
      ensures HasString(Memory(), Low(), str)
      ensures SameFrom(old(Memory()), Memory(), old(Low()))
    {
      ghost var was, low := Memory(), Low();
      var len := |str| + 1;
      assert Low() == from - FROM_STACK;
      from, to := from - len, to - len;
      var i := from - FROM_STACK;
      for k := 0 to |str|
        modifies page
        invariant page[i..i + k] == str[..k]
        invariant forall j | low <= j < STACK_SIZE :: page[j] == was[j]
      {
        page[i + k] := str[k];
        assert page[i..i + k + 1] == page[i..i + k] + [str[k]];
      }
      page[i + |str|] := 0;
      assert Memory()[i..i + |str|] == str;
      at := to;
    }

    // elf_copy_strlist: the strings, a zero word and the pointers, each below the one before.
    method CopyStrlist(things: seq<seq<Byte>>) returns (at: nat)
      requires Valid() && Low() >= ListSize(things)
      modifies this, page
      ensures Valid() && Low() == old(Low()) - ListSize(things) && at == to
      ensures HasList(Memory(), Low(), at, things)
      ensures SameFrom(old(Memory()), Memory(), old(Low()))
    {
      hide HasString, WordAt, HasList;
      ghost var was, low := Memory(), Low();
      var foo: seq<nat> := [];
      for i := 0 to |things|
        invariant Valid() && |foo| == i && Low() == low - StringsSize(things[..i]) && Low() >= ListSize(things) - StringsSize(things[..i])
        invariant SameFrom(was, Memory(), low)
        invariant forall j | 0 <= j < i :: PointsTo(Memory(), Low(), foo[j], things[j])
      {
        StringsSizeGrows(things, i + 1);
        assert things[..i + 1][..i] == things[..i];
        ghost var before, at0 := Memory(), Low();
        var a := PushStr(things[i]);
        PointersStay(before, Memory(), at0, Low(), foo, things);
        foo := foo + [a];
      }
      assert things[..|things|] == things;
      ghost var before, at0 := Memory(), Low();
      var a := PushArg(0);
      PointersStay(before, Memory(), at0, Low(), foo, things);
      NoPointers(Memory(), Low(), foo);
      PushPointers(foo, things);
      assert HasList(Memory(), Low(), to, things) by { ListHere(Memory(), Low(), foo, things); }
      at := to;
    }

    // The last loop of elf_copy_strlist
    method PushPointers(foo: seq<nat>, ghost things: seq<seq<Byte>>)
      requires Valid() && |foo| == |things| && Low() >= 4 * |foo| && HasPointers(Memory(), Low(), foo, |foo|)
      requires forall j | 0 <= j < |foo| :: PointsTo(Memory(), Low(), foo[j], things[j])
      modifies this, page
      ensures Valid() && Low() == old(Low()) - 4 * |foo| && HasPointers(Memory(), Low(), foo, 0)
      ensures forall j | 0 <= j < |foo| :: PointsTo(Memory(), Low(), foo[j], things[j])
      ensures SameFrom(old(Memory()), Memory(), old(Low()))
    {
      hide HasString, WordAt, HasPointers, PointsTo;
      ghost var was, low := Memory(), Low();
      var i: nat := |foo|;
      while i > 0
        invariant i <= |foo| && Valid() && Low() == low - 4 * (|foo| - i)
        invariant SameFrom(was, Memory(), low)
        invariant HasPointers(Memory(), Low(), foo, i)
        invariant forall j | 0 <= j < |foo| :: PointsTo(Memory(), Low(), foo[j], things[j])
      {
        ghost var m, l := Memory(), Low();
        PointerSmall(m, l, foo[i - 1], things[i - 1]);
        var a := PushArg(foo[i - 1]);
        PointersStay(m, Memory(), l, Low(), foo, things);
        OnePointer(m, Memory(), l, foo, i);
        i := i - 1;
      }
    }

    // setup_stack_params: the new process, started with its stack pointer at to, finds the
    // strings, the name server and the magic number it was given.
    method SetupStackParams(nameserver: nat, argv: seq<seq<Byte>>, envp: seq<seq<Byte>>)
      requires Valid() && Low() == STACK_OFFSET && ListSize(argv) + ListSize(envp) + 20 <= STACK_OFFSET
      requires nameserver < WORD
      requires (forall i | 0 <= i < |argv| :: CString(argv[i])) && (forall i | 0 <= i < |envp| :: CString(envp[i]))
      modifies this, page
      ensures Valid() && WordAt(Memory(), to - TO_STACK) == 0
      ensures StartAt(Memory(), to) == Start(nameserver, argv, envp, INIT_MAGIC)
      ensures var m, at := Memory(), to - TO_STACK;
              && WordAt(m, at + 4) == nameserver && WordAt(m, at + 16) == INIT_MAGIC
              && ArrayAt(m, WordAt(m, at + 8), argv) && ArrayAt(m, WordAt(m, at + 12), envp)
    {
      hide HasString, WordAt, HasList, StringsAt, CString, ArrayAt;
      var toArgv := CopyStrlist(argv);
      ghost var m0, l0 := Memory(), Low();
      var toEnvp := CopyStrlist(envp);
      ghost var m1, l1 := Memory(), Low();
      ListFrame(m0, m1, l0, toArgv, argv);
      PushStart(nameserver, toArgv, toEnvp);
      ghost var m := Memory();
      ListFrame(m1, m, l0, toArgv, argv);
      ListFrame(m1, m, l1, toEnvp, envp);
      ReadsList(m, l0, toArgv, argv);
      ReadsList(m, l1, toEnvp, envp);
      ListIsArray(m, l0, toArgv, argv);
      ListIsArray(m, l1, toEnvp, envp);
    }

    // The five words on top
    method PushStart(nameserver: nat, toArgv: nat, toEnvp: nat)
      requires Valid() && Low() >= 20 && nameserver < WORD && toArgv < WORD && toEnvp < WORD
      modifies this, page
      ensures Valid() && Low() == old(Low()) - 20 && SameFrom(old(Memory()), Memory(), old(Low()))
      ensures WordAt(Memory(), Low()) == 0 && WordAt(Memory(), Low() + 4) == nameserver
      ensures WordAt(Memory(), Low() + 8) == toArgv && WordAt(Memory(), Low() + 12) == toEnvp
      ensures WordAt(Memory(), Low() + 16) == INIT_MAGIC
    {
      hide WordAt;
      ghost var l1 := Low();
      var at := PushArg(INIT_MAGIC);
      ghost var m2 := Memory();
      at := PushArg(toEnvp);
      ghost var m3 := Memory();
      at := PushArg(toArgv);
      ghost var m4 := Memory();
      at := PushArg(nameserver);
      ghost var m5 := Memory();
      at := PushArg(0);
      ghost var m := Memory();
      WordFrame(m2, m, l1 - 4, l1 - 4);
      WordFrame(m3, m, l1 - 8, l1 - 8);
      WordFrame(m4, m, l1 - 12, l1 - 12);
      WordFrame(m5, m, l1 - 16, l1 - 16);
    }
  }
}
