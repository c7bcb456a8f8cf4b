/** The stack a new program finds: the part of `execve` (kernel/src/loader/exec.c) that lays out the environment, the
    arguments and their count, against a reader that follows the pointers the way a C program does. */
module ExecStack {
  import opened Layout

  /** The one page of user stack that `execve` maps; the stack starts at USTACK_END in it. */
  const STACK_PAGE: int := 0xFFFF_F000

  // ---------------------------------------------------------------- reading memory

  /** Bytes a .. a+n-1 are in the page. */
  predicate Inside(m: seq<byte>, a: int, n: int) { STACK_PAGE <= a && a + n <= STACK_PAGE + |m| }

  function At(m: seq<byte>, a: int): byte
    requires Inside(m, a, 1)
  {
    m[a - STACK_PAGE]
  }

  /** A little-endian word. */
  function Word(m: seq<byte>, a: int): int
    requires Inside(m, a, 4)
  {
    At(m, a) + 0x100 * At(m, a + 1) + 0x1_0000 * At(m, a + 2) + 0x100_0000 * At(m, a + 3)
  }

  /** The C string at a; None when memory ends before its NUL. */
  function CString(m: seq<byte>, a: int): Option<seq<byte>>
    decreases STACK_PAGE + |m| - a
  {
    if !Inside(m, a, 1) then None
    else if At(m, a) == 0 then Some([])
    else match CString(m, a + 1)
      case None => None
      case Some(s) => Some([At(m, a)] + s)
  }

  /** The strings that the NULL-terminated vector of pointers at a leads to. */
  function Vector(m: seq<byte>, a: int): Option<seq<seq<byte>>>
    decreases STACK_PAGE + |m| - a
  {
    if !Inside(m, a, 4) then None
    else if Word(m, a) == 0 then Some([])
    else match (CString(m, Word(m, a)), Vector(m, a + 4))
      case (Some(s), Some(v)) => Some([s] + v)
      case _ => None
  }

  // ---------------------------------------------------------------- what lies where

  /** The image holds s and its NUL at a. */
  ghost predicate HoldsString(m: seq<byte>, a: int, s: seq<byte>) {
    && Inside(m, a, |s| + 1) && At(m, a + |s|) == 0
    && forall k :: 0 <= k < |s| ==> At(m, a + k) == s[k]
  }

  ghost predicate HoldsStrings(m: seq<byte>, ptrs: seq<int>, v: seq<seq<byte>>, from: int) {
    && |ptrs| == |v|
    && forall i :: 0 <= from <= i < |v| ==> HoldsString(m, ptrs[i], v[i])
  }

  /** The words of ptrs from `from` on, and a zero word, lie at a. */
  ghost predicate HoldsWords(m: seq<byte>, a: int, ptrs: seq<int>, from: int) {
    && 0 <= from <= |ptrs| && Inside(m, a, 4 * (|ptrs| - from) + 4) && Word(m, a + 4 * (|ptrs| - from)) == 0
    && forall i {:trigger ptrs[i]} :: from <= i < |ptrs| ==> Word(m, a + 4 * (i - from)) == ptrs[i]
  }

  lemma {:induction false} ReadsString(m: seq<byte>, a: int, s: seq<byte>)
    requires HoldsString(m, a, s) && Lacks(s, 0)
    ensures CString(m, a) == Some(s)
    decreases |s|
  {
    if s != [] {
      assert At(m, a + 0) == s[0];
      forall k | 0 <= k < |s[1..]|
        ensures At(m, a + 1 + k) == s[1..][k]
      {
        assert At(m, a + (k + 1)) == s[k + 1];
      }
      ReadsString(m, a + 1, s[1..]);
      assert s == [s[0]] + s[1..];
    }
  }

  lemma {:induction false} ReadsVector(m: seq<byte>, a: int, ptrs: seq<int>, v: seq<seq<byte>>, from: int)
    requires HoldsStrings(m, ptrs, v, from) && HoldsWords(m, a, ptrs, from)
    requires forall i :: 0 <= i < |v| ==> Lacks(v[i], 0)
    ensures Vector(m, a) == Some(v[from..])
    decreases |v| - from
  {
    if from < |v| {
      assert Word(m, a + 4 * (from - from)) == ptrs[from];
      ReadsString(m, ptrs[from], v[from]);
      ReadsVector(m, a + 4, ptrs, v, from + 1);
      assert v[from..] == [v[from]] + v[from + 1..];
    }
  }

  /** Writing below sp only. */
  ghost predicate SameFrom(m0: seq<byte>, m: seq<byte>, sp: int) {
    && |m| == |m0|
    && forall a :: sp <= a && Inside(m, a, 1) ==> At(m, a) == At(m0, a)
  }

  lemma KeepsStrings(m0: seq<byte>, m: seq<byte>, sp: int, ptrs: seq<int>, v: seq<seq<byte>>, from: int)
    requires SameFrom(m0, m, sp) && HoldsStrings(m0, ptrs, v, from) && forall i :: 0 <= from <= i < |ptrs| ==> sp <= ptrs[i]
    ensures HoldsStrings(m, ptrs, v, from)
  {
    forall i | 0 <= from <= i < |v|
      ensures HoldsString(m, ptrs[i], v[i])
    {
      assert HoldsString(m0, ptrs[i], v[i]);
    }
  }

  lemma KeepsWord(m0: seq<byte>, m: seq<byte>, sp: int, a: int)
    requires SameFrom(m0, m, sp) && sp <= a && Inside(m, a, 4)
    ensures Word(m, a) == Word(m0, a)
  {
  }

  lemma KeepsWords(m0: seq<byte>, m: seq<byte>, sp: int, a: int, ptrs: seq<int>, from: int)
    requires SameFrom(m0, m, sp) && HoldsWords(m0, a, ptrs, from) && sp <= a
    ensures HoldsWords(m, a, ptrs, from)
  {
    KeepsWord(m0, m, sp, a + 4 * (|ptrs| - from));
    forall i | from <= i < |ptrs|
      ensures Word(m, a + 4 * (i - from)) == ptrs[i]
    {
      KeepsWord(m0, m, sp, a + 4 * (i - from));
    }
  }

  lemma OneMoreWord(m0: seq<byte>, m: seq<byte>, a: int, ptrs: seq<int>, i: int)
    requires 0 <= i < |ptrs| && SameFrom(m0, m, a) && HoldsWords(m0, a, ptrs, i + 1)
    requires Inside(m, a - 4, 4) && Word(m, a - 4) == ptrs[i]
    ensures HoldsWords(m, a - 4, ptrs, i)
  {
    KeepsWords(m0, m, a, a, ptrs, i + 1);
    forall k | i <= k < |ptrs|
      ensures Word(m, a - 4 + 4 * (k - i)) == ptrs[k]
    {
      assert k > i ==> Word(m, a + 4 * (k - (i + 1))) == ptrs[k];
    }
  }

  lemma SameBoth(m0: seq<byte>, m1: seq<byte>, m2: seq<byte>, sp1: int, sp2: int)
    requires SameFrom(m0, m1, sp1) && SameFrom(m1, m2, sp2) && sp2 <= sp1
    ensures SameFrom(m0, m2, sp1)
  {
  }

  /** A finished vector is read back whatever is written below it. */
  lemma VectorLasts(m0: seq<byte>, a: int, ptrs: seq<int>, v: seq<seq<byte>>)
    requires HoldsStrings(m0, ptrs, v, 0) && HoldsWords(m0, a, ptrs, 0) && forall i :: 0 <= i < |ptrs| ==> a <= ptrs[i]
    requires forall i :: 0 <= i < |v| ==> Lacks(v[i], 0)
    ensures Lasts(m0, a, v)
  {
    forall m | SameFrom(m0, m, a)
      ensures Vector(m, a) == Some(v)
    {
      KeepsStrings(m0, m, a, ptrs, v, 0);
      KeepsWords(m0, m, a, a, ptrs, 0);
      ReadsVector(m, a, ptrs, v, 0);
      assert v[0..] == v;
    }
  }

  ghost predicate Lasts(m0: seq<byte>, a: int, v: seq<seq<byte>>) {
    forall m {:trigger SameFrom(m0, m, a)} :: SameFrom(m0, m, a) ==> Vector(m, a) == Some(v)
  }

  lemma LowByte(data: int)
    requires 0 <= data
    ensures data == data % 0x100 + 0x100 * (data / 0x100)
    ensures data / 0x1_0000 == data / 0x100 / 0x100 && data / 0x100_0000 == data / 0x1_0000 / 0x100
  {
  }

  /** A word is the sum of the bytes `push` cuts it into. */
  lemma WordOfBytes(data: int)
    requires 0 <= data < WORD
    ensures data == data % 0x100 + 0x100 * (data / 0x100 % 0x100) + 0x1_0000 * (data / 0x1_0000 % 0x100)
                    + 0x100_0000 * (data / 0x100_0000 % 0x100)
  {
    LowByte(data);
    LowByte(data / 0x100);
    LowByte(data / 0x1_0000);
    assert data / 0x100_0000 < 0x100;
  }

  // ---------------------------------------------------------------- room

  function StringBytes(v: seq<seq<byte>>): nat { if v == [] then 0 else |v[0]| + 1 + StringBytes(v[1..]) }

  function RoundDown(a: int): (r: int)
    ensures r <= a < r + 4 && r % 4 == 0
  {
    a - a % 4
  }

  /** Where the vector of v starts when it is laid out below sp. */
  function VectorAt(sp: int, v: seq<seq<byte>>): int {
    if v == [] then sp - 4 else RoundDown(sp - StringBytes(v)) - 4 - 4 * |v|
  }

  lemma VectorBelow(sp: int, v: seq<seq<byte>>)
    requires sp % 4 == 0
    ensures VectorAt(sp, v) <= sp - 4 - 4 * |v| && VectorAt(sp, v) % 4 == 0 && (VectorAt(sp, v) - 4) % 4 == 0
  {
  }

  lemma {:induction false} BytesSplit(v: seq<seq<byte>>, i: int)
    requires 0 <= i < |v|
    ensures StringBytes(v[i..]) == |v[i]| + 1 + StringBytes(v[i + 1..]) && StringBytes(v[i..]) <= StringBytes(v)
    decreases i
  {
    assert v[i..][1..] == v[i + 1..];
    if i == 0 {
      assert v[0..] == v;
    } else {
      BytesSplit(v, i - 1);
      BytesSplit(v, 0);
    }
  }

  class Stack {
    const mem: array<byte>

    constructor ()
      ensures fresh(mem) && mem.Length == 4096
    {
      mem := new byte[4096](_ => 0);
    }

    ghost function Bytes(): seq<byte>
      reads this, mem
    {
      mem[..]
    }

    /** `push` of one byte. */
    method PushByte(sp: int, data: int) returns (r: int)
      requires Inside(Bytes(), sp - 1, 1) && 0 <= data < WORD
      modifies mem
      ensures r == sp - 1 && SameFrom(old(Bytes()), Bytes(), sp) && Inside(Bytes(), r, 1) && At(Bytes(), r) == data % 256
    {
      r := sp - 1;
      mem[r - STACK_PAGE] := data % 256;
    }

    /** `push` of a word, high byte first, so that it lies little-endian. */
    method PushWord(sp: int, data: int) returns (r: int)
      requires Inside(Bytes(), sp - 4, 4) && 0 <= data < WORD
      modifies mem
      ensures r == sp - 4 && SameFrom(old(Bytes()), Bytes(), sp) && Inside(Bytes(), r, 4) && Word(Bytes(), r) == data
    {
      ghost var m0 := Bytes();
      r := PushByte(sp, data / 0x100_0000 % 0x100);
      ghost var m1 := Bytes();
      r := PushByte(r, data / 0x1_0000 % 0x100);
      ghost var m2 := Bytes();
      SameBoth(m0, m1, m2, sp, sp - 1);
      r := PushByte(r, data / 0x100 % 0x100);
      ghost var m3 := Bytes();
      SameBoth(m0, m2, m3, sp, sp - 2);
      r := PushByte(r, data % 0x100);
      SameBoth(m0, m3, Bytes(), sp, sp - 3);
      WordOfBytes(data);
    }

    /** A string with its NUL, last character first. */
    method PushString(sp: int, s: seq<byte>) returns (r: int)
      requires Inside(Bytes(), sp - |s| - 1, |s| + 1)
      modifies mem
      ensures r == sp - |s| - 1 && SameFrom(old(Bytes()), Bytes(), sp) && HoldsString(Bytes(), r, s)
    {
      r := PushByte(sp, 0);
      var j := |s| - 1;
      while j >= 0
        invariant -1 <= j < |s| && r == sp - |s| + j && SameFrom(old(Bytes()), Bytes(), sp)
        invariant At(Bytes(), sp - 1) == 0
        invariant forall k :: j < k < |s| ==> At(Bytes(), sp - |s| - 1 + k) == s[k]
      {
        r := PushByte(r, s[j]);
        j := j - 1;
      }
    }

    /** All strings, last first; each entry of the vector becomes the address of its string. */
    method PushStrings(sp: int, v: seq<seq<byte>>) returns (r: int, ptrs: seq<int>)
      requires Inside(Bytes(), sp - StringBytes(v), StringBytes(v))
      modifies mem
      ensures r == sp - StringBytes(v) && SameFrom(old(Bytes()), Bytes(), sp) && HoldsStrings(Bytes(), ptrs, v, 0)
      ensures forall i :: 0 <= i < |ptrs| ==> r <= ptrs[i] < sp
    {
      r, ptrs := sp, seq(|v|, _ => 0);
      var i := |v| - 1;
      while i >= 0
        invariant -1 <= i < |v| == |ptrs| && r == sp - StringBytes(v[i + 1..]) && SameFrom(old(Bytes()), Bytes(), sp)
        invariant HoldsStrings(Bytes(), ptrs, v, i + 1) && forall k :: i < k < |ptrs| ==> r <= ptrs[k] < sp
      {
        BytesSplit(v, i);
        ghost var m := Bytes();
        ghost var top := r;
        r := PushString(r, v[i]);
        KeepsStrings(m, Bytes(), top, ptrs, v, i + 1);
        ptrs := ptrs[i := r];
        i := i - 1;
      }
      assert v[0..] == v;
    }

    /** The pointers, last first, above them a zero word. */
    method PushPointers(sp: int, ptrs: seq<int>) returns (r: int)
      requires Inside(Bytes(), sp - 4 - 4 * |ptrs|, 4 * |ptrs| + 4) && forall i :: 0 <= i < |ptrs| ==> 0 <= ptrs[i] < WORD
      modifies mem
      ensures r == sp - 4 - 4 * |ptrs| && SameFrom(old(Bytes()), Bytes(), sp) && HoldsWords(Bytes(), r, ptrs, 0)
    {
      r := PushWord(sp, 0);
      var i := |ptrs| - 1;
      while i >= 0
        invariant -1 <= i < |ptrs| && r == sp - 4 - 4 * (|ptrs| - 1 - i) && SameFrom(old(Bytes()), Bytes(), sp)
        invariant HoldsWords(Bytes(), r, ptrs, i + 1)
      {
        ghost var m := Bytes();
        ghost var top := r;
        r := PushWord(r, ptrs[i]);
        OneMoreWord(m, Bytes(), top, ptrs, i);
        i := i - 1;
      }
    }

    /** One of the two vectors: strings, alignment, pointers; a lone zero word for none. */
    method PushVector(sp: int, v: seq<seq<byte>>) returns (r: int)
      requires sp % 4 == 0 && STACK_PAGE <= VectorAt(sp, v) && sp <= STACK_PAGE + mem.Length == WORD
      requires forall i :: 0 <= i < |v| ==> Lacks(v[i], 0)
      modifies mem
      ensures r == VectorAt(sp, v) && r % 4 == 0 && SameFrom(old(Bytes()), Bytes(), sp)
      ensures Lasts(Bytes(), r, v)
    {
      VectorBelow(sp, v);
      ghost var ptrs: seq<int> := [];
      if |v| > 0 {
        var ps;
        r, ps := PushStrings(sp, v);
        ghost var m := Bytes();
        r := RoundDown(r);
        ghost var top := r;
        r := PushPointers(r, ps);
        KeepsStrings(m, Bytes(), top, ps, v, 0);
        ptrs := ps;
      } else {
        r := PushWord(sp, 0);
      }
      VectorLasts(Bytes(), r, ptrs, v);
    }

    /** The stack-building part of `execve`: a program that follows the three addresses finds its environment, its
        arguments and their number. */
    method BuildStack(argv: seq<seq<byte>>, envp: seq<seq<byte>>) returns (env: int, args: int, argc: int)
      requires mem.Length == 4096 && STACK_PAGE + 4 <= VectorAt(VectorAt(USTACK_END, envp), argv)
      requires forall i :: 0 <= i < |argv| ==> Lacks(argv[i], 0)
      requires forall i :: 0 <= i < |envp| ==> Lacks(envp[i], 0)
      modifies mem
      ensures Vector(Bytes(), env) == Some(envp)
      ensures Vector(Bytes(), args) == Some(argv)
      ensures Inside(Bytes(), argc, 4) && Word(Bytes(), argc) == |argv|
      ensures env % 4 == 0 && args % 4 == 0 && argc % 4 == 0 && STACK_PAGE <= argc < args < env < USTACK_END
    {
      VectorBelow(USTACK_END, envp);
      VectorBelow(VectorAt(USTACK_END, envp), argv);
      env := PushVector(USTACK_END, envp);
      ghost var m1 := Bytes();
      args := PushVector(env, argv);
      ghost var m2 := Bytes();
      argc := PushWord(args, |argv|);
      SameBoth(m1, m2, Bytes(), env, args);
      assert Vector(Bytes(), env) == Some(envp) && Vector(Bytes(), args) == Some(argv);
    }
  }
}
