/** rlibc/stdlib/qsort.c: a dual-pivot quicksort that leaves runs of up to five elements unsorted, followed by one
    insertion pass over the whole array.  Elements are `size` consecutive bytes of an array; the code moves byte
    offsets, the ghost parameters are the element numbers they stand for. */
module Qsort {
  import opened Arith
  import opened Layout

  type Elem = seq<byte>
  type Compar = (Elem, Elem) -> int

  predicate Chain(cmp: Compar, x: Elem, y: Elem, z: Elem) {
    cmp(x, y) <= 0 && cmp(y, z) <= 0 ==> cmp(x, z) <= 0
  }

  /** The comparison function is a total preorder on elements of the given size. */
  ghost predicate Consistent(cmp: Compar, size: int) {
    && (forall x, y :: |x| == |y| == size ==> (cmp(x, y) < 0 <==> cmp(y, x) > 0))
    && (forall x, y, z {:trigger Chain(cmp, x, y, z)} :: |x| == |y| == |z| == size ==> Chain(cmp, x, y, z))
  }

  // ---------------------------------------------------------------- bytes and elements

  lemma Inside(k: int, n: int, size: int)
    requires 0 <= k < n && size > 0
    ensures 0 <= k * size && k * size + size <= n * size
  {
    MulMono(0, k, size);
    MulMono(k + 1, n, size);
  }

  lemma Apart(i: int, j: int, size: int)
    requires i < j && size > 0
    ensures i * size + size <= j * size
  {
    MulMono(i + 1, j, size);
  }

  /** e[k] is the k-th group of `size` bytes of s. */
  ghost predicate ElemIs(s: seq<byte>, size: int, e: seq<Elem>, k: int)
    requires 0 <= k < |e| && size > 0
  {
    0 <= k * size && k * size + size <= |s| && e[k] == s[k * size..k * size + size]
  }

  /** e is the sequence of elements stored in the bytes s. */
  ghost predicate Views(s: seq<byte>, size: int, e: seq<Elem>) {
    && size > 0 && |s| == |e| * size
    && forall k {:trigger ElemIs(s, size, e, k)} :: 0 <= k < |e| ==> ElemIs(s, size, e, k)
  }

  ghost predicate Sized(e: seq<Elem>, size: int) { forall k :: 0 <= k < |e| ==> |e[k]| == size }

  lemma ViewsSized(s: seq<byte>, size: int, e: seq<Elem>)
    requires Views(s, size, e)
    ensures Sized(e, size)
  {
    forall k | 0 <= k < |e|
      ensures |e[k]| == size
    {
      assert ElemIs(s, size, e, k);
    }
  }

  /** Any whole number of elements has exactly one view. */
  lemma ViewExists(s: seq<byte>, size: int, n: nat) returns (e: seq<Elem>)
    requires size > 0 && |s| == n * size
    ensures Views(s, size, e) && |e| == n
  {
    assert forall k {:trigger k * size} :: 0 <= k < n ==> 0 <= k * size && k * size + size <= |s| by {
      forall k | 0 <= k < n ensures 0 <= k * size && k * size + size <= |s| { Inside(k, n, size); }
    }
    e := seq(n, k requires 0 <= k < n => s[k * size..k * size + size]);
  }

  lemma ViewUnique(s: seq<byte>, size: int, e: seq<Elem>, f: seq<Elem>)
    requires Views(s, size, e) && Views(s, size, f)
    ensures e == f
  {
    OffsetOrder(|e|, |f|, size);
    forall k | 0 <= k < |e|
      ensures e[k] == f[k]
    {
      assert ElemIs(s, size, e, k) && ElemIs(s, size, f, k);
    }
  }

  function Swapped<T>(e: seq<T>, i: nat, j: nat): (r: seq<T>)
    requires i < |e| && j < |e|
    ensures |r| == |e|
  {
    e[i := e[j]][j := e[i]]
  }

  /** `swap`: exchange two stretches byte by byte, from the last byte down. */
  method SwapBytes(a: array<byte>, va: int, vb: int, size: int)
    requires 0 <= va && va + size <= a.Length && 0 <= vb && vb + size <= a.Length && size > 0
    requires va == vb || va + size <= vb || vb + size <= va
    modifies a
    ensures a[va..va + size] == old(a[vb..vb + size]) && a[vb..vb + size] == old(a[va..va + size])
    ensures forall x :: 0 <= x < a.Length && !(va <= x < va + size) && !(vb <= x < vb + size) ==> a[x] == old(a[x])
  {
    var s := size;
    while s > 0
      invariant 0 <= s <= size
      invariant forall x :: va + s <= x < va + size ==> a[x] == old(a[x - va + vb])
      invariant forall x :: vb + s <= x < vb + size ==> a[x] == old(a[x - vb + va])
      invariant forall x :: 0 <= x < a.Length && !(va + s <= x < va + size) && !(vb + s <= x < vb + size) ==> a[x] == old(a[x])
    {
      s := s - 1;
      a[va + s], a[vb + s] := a[vb + s], a[va + s];
    }
    ghost var nowA, nowB, wasA, wasB := a[va..va + size], a[vb..vb + size], old(a[va..va + size]), old(a[vb..vb + size]);
    forall k | 0 <= k < size
      ensures nowA[k] == wasB[k] && nowB[k] == wasA[k]
    {
      assert a[va + k] == old(a[va + k - va + vb]) && a[vb + k] == old(a[vb + k - vb + va]);
    }
  }

  method Swap(a: array<byte>, va: int, vb: int, size: int, ghost e: seq<Elem>, ghost i: nat, ghost j: nat)
    requires Views(a[..], size, e) && i < |e| && j < |e| && va == i * size && vb == j * size
    modifies a
    ensures Views(a[..], size, Swapped(e, i, j))
  {
    Inside(i, |e|, size);
    Inside(j, |e|, size);
    if i < j { Apart(i, j, size); } else if j < i { Apart(j, i, size); }
    ghost var was := a[..];
    SwapBytes(a, va, vb, size);
    assert a[..][va..va + size] == a[va..va + size] && was[va..va + size] == old(a[va..va + size]);
    assert a[..][vb..vb + size] == a[vb..vb + size] && was[vb..vb + size] == old(a[vb..vb + size]);
    SwapElems(was, a[..], va, vb, size, e, i, j);
  }

  /** An element that overlaps neither exchanged one keeps its bytes. */
  lemma ElemKept(was: seq<byte>, now: seq<byte>, va: int, vb: int, size: int, e: seq<Elem>, i: nat, j: nat, k: nat)
    requires Views(was, size, e) && |now| == |was| && i < |e| && j < |e| && k < |e| && k != i && k != j
    requires va == i * size && vb == j * size
    requires forall x :: 0 <= x < |was| && !(va <= x < va + size) && !(vb <= x < vb + size) ==> now[x] == was[x]
    ensures ElemIs(now, size, Swapped(e, i, j), k)
  {
    assert ElemIs(was, size, e, k);
    if k < i { Apart(k, i, size); } else { Apart(i, k, size); }
    if k < j { Apart(k, j, size); } else { Apart(j, k, size); }
    var vk := k * size;
    assert forall x :: vk <= x < vk + size ==> now[x] == was[x];
  }

  lemma SwapElems(was: seq<byte>, now: seq<byte>, va: int, vb: int, size: int, e: seq<Elem>, i: nat, j: nat)
    requires Views(was, size, e) && |now| == |was| && i < |e| && j < |e| && va == i * size && vb == j * size
    requires 0 <= va && va + size <= |was| && 0 <= vb && vb + size <= |was|
    requires now[va..va + size] == was[vb..vb + size] && now[vb..vb + size] == was[va..va + size]
    requires forall x :: 0 <= x < |was| && !(va <= x < va + size) && !(vb <= x < vb + size) ==> now[x] == was[x]
    ensures Views(now, size, Swapped(e, i, j))
  {
    assert ElemIs(was, size, e, i) && ElemIs(was, size, e, j);
    forall k | 0 <= k < |e|
      ensures ElemIs(now, size, Swapped(e, i, j), k)
    {
      if k != i && k != j {
        ElemKept(was, now, va, vb, size, e, i, j, k);
      }
    }
  }

  lemma OffsetOrder(i: int, j: int, size: int)
    requires size > 0
    ensures i * size <= j * size <==> i <= j
    ensures i * size < j * size <==> i < j
  {
    if i < j {
      Apart(i, j, size);
    } else if j < i {
      Apart(j, i, size);
    }
  }

  /** `compar` on the elements at two offsets. */
  method Compare(a: array<byte>, x: int, y: int, size: int, cmp: Compar, ghost e: seq<Elem>, ghost i: nat, ghost j: nat)
    returns (c: int)
    requires Views(a[..], size, e) && i < |e| && j < |e| && x == i * size && y == j * size
    ensures c == cmp(e[i], e[j])
  {
    assert ElemIs(a[..], size, e, i) && ElemIs(a[..], size, e, j);
    c := cmp(a[x..x + size], a[y..y + size]);
    assert a[x..x + size] == a[..][x..x + size] && a[y..y + size] == a[..][y..y + size];
  }

  // ---------------------------------------------------------------- insertion sort

  ghost predicate Sorted(e: seq<Elem>, lo: int, hi: int, cmp: Compar)
    requires 0 <= lo && hi <= |e|
  {
    forall i, j :: lo <= i < j < hi ==> cmp(e[i], e[j]) <= 0
  }

  /** Elements five or more places apart are in order. */
  ghost predicate NearSorted(e: seq<Elem>, lo: int, hi: int, cmp: Compar)
    requires 0 <= lo && hi <= |e|
  {
    forall i, j :: lo <= i && i + 5 <= j < hi ==> cmp(e[i], e[j]) <= 0
  }

  /** Element p moved down to place q. */
  ghost function Rotated(e: seq<Elem>, q: nat, p: nat): (r: seq<Elem>)
    requires q <= p < |e|
    ensures |r| == |e|
  {
    e[..q] + [e[p]] + e[q..p] + e[p + 1..]
  }

  /** Place q is where element p sinks to: it passes exactly the larger elements before it. */
  ghost predicate SinksTo(e: seq<Elem>, q: nat, p: nat, cmp: Compar)
    requires q <= p < |e|
  {
    (forall k :: q <= k < p ==> cmp(e[k], e[p]) > 0) && (q > 0 ==> cmp(e[q - 1], e[p]) <= 0)
  }

  lemma RotateStep(e: seq<Elem>, q: nat, p: nat)
    requires 0 < q <= p < |e|
    ensures Swapped(Rotated(e, q, p), q - 1, q) == Rotated(e, q - 1, p)
  {
  }

  lemma RotatePerm(e: seq<Elem>, q: nat, p: nat)
    requires q <= p < |e|
    ensures multiset(Rotated(e, q, p)[..p + 1]) == multiset(e[..p + 1])
    ensures Rotated(e, q, p)[p + 1..] == e[p + 1..]
  {
    assert Rotated(e, q, p)[..p + 1] == e[..q] + [e[p]] + e[q..p];
    assert e[..p + 1] == e[..q] + e[q..p] + [e[p]];
  }

  lemma RotateSorted(e: seq<Elem>, q: nat, p: nat, cmp: Compar, size: int)
    requires q <= p < |e| && Consistent(cmp, size) && Sized(e, size) && Sorted(e, 0, p, cmp) && SinksTo(e, q, p, cmp)
    ensures Sorted(Rotated(e, q, p), 0, p + 1, cmp)
  {
    var r := Rotated(e, q, p);
    forall i, j | 0 <= i < j < p + 1
      ensures cmp(r[i], r[j]) <= 0
    {
      RotatedAt(e, q, p, i);
      RotatedAt(e, q, p, j);
      if j == q {
        BeforeSunk(e, q, p, cmp, size, i);
      } else if i == q {
        assert cmp(e[j - 1], e[p]) > 0;
      }
    }
  }

  lemma RotatedAt(e: seq<Elem>, q: nat, p: nat, k: nat)
    requires q <= p < |e| && k <= p
    ensures Rotated(e, q, p)[k] == if k < q then e[k] else if k == q then e[p] else e[k - 1]
  {
  }

  lemma BeforeSunk(e: seq<Elem>, q: nat, p: nat, cmp: Compar, size: int, i: nat)
    requires q <= p < |e| && Consistent(cmp, size) && Sized(e, size) && Sorted(e, 0, p, cmp) && SinksTo(e, q, p, cmp) && i < q
    ensures cmp(e[i], e[p]) <= 0
  {
    assert i == q - 1 || Chain(cmp, e[i], e[q - 1], e[p]);
  }

  /** If the whole was near-sorted, the elements of the sorted prefix that exceed element p come from the four
      places before p. */
  lemma FewMoves(e0: seq<Elem>, e: seq<Elem>, q: nat, p: nat, cmp: Compar)
    requires q <= p < |e0| == |e| && NearSorted(e0, 0, |e0|, cmp)
    requires multiset(e[..p]) == multiset(e0[..p]) && e[p] == e0[p]
    requires forall k :: q <= k < p ==> cmp(e[k], e[p]) > 0
    ensures p - q <= 4
  {
    var c := if p < 4 then 0 else p - 4;
    var low, high, moved := e0[..c], e0[c..p], e[q..p];
    assert e0[..p] == low + high;
    assert e[..p] == e[..q] + moved;
    assert multiset(moved) <= multiset(low) + multiset(high);
    assert forall j :: 0 <= j < |low| ==> cmp(low[j], e[p]) <= 0;
    forall x | x in moved
      ensures x !in low
    {
      var k :| 0 <= k < |moved| && moved[k] == x;
      assert cmp(e[q + k], e[p]) > 0;
    }
    assert multiset(moved) <= multiset(high) by {
      forall x | x in multiset(moved)
        ensures multiset(moved)[x] <= multiset(high)[x]
      {
        assert x in moved && x !in low;
      }
    }
    CardMono(multiset(moved), multiset(high));
  }

  lemma CardMono(a: multiset<Elem>, b: multiset<Elem>)
    requires a <= b
    ensures |a| <= |b|
  {
    assert b == a + (b - a);
  }

  /** The inner loop of `isort`: element p sinks to its place, one swap for each place. */
  method Sink(a: array<byte>, p: int, size: int, cmp: Compar, ghost e: seq<Elem>, ghost ip: nat) returns (ghost iq: nat)
    requires Views(a[..], size, e) && ip < |e| && p == ip * size
    modifies a
    ensures iq <= ip && Views(a[..], size, Rotated(e, iq, ip)) && SinksTo(e, iq, ip, cmp)
  {
    var q := p;
    iq := ip;
    assert Rotated(e, ip, ip) == e;
    while q > 0
      invariant iq <= ip && q == iq * size
      invariant Views(a[..], size, Rotated(e, iq, ip))
      invariant forall k :: iq <= k < ip ==> cmp(e[k], e[ip]) > 0
      decreases iq
    {
      OffsetOrder(0, iq, size);
      ghost var r := Rotated(e, iq, ip);
      var c := Compare(a, q - size, q, size, cmp, r, iq - 1, iq);
      if c <= 0 { return; }
      Swap(a, q - size, q, size, r, iq - 1, iq);
      RotateStep(e, iq, ip);
      q, iq := q - size, iq - 1;
    }
    OffsetOrder(iq, 0, size);
  }

  /** Insertions of the first |moves| of n elements: v[k] is the array before element k is inserted, and inserting it
      takes moves[k] swaps of neighbours, one for each place it passes.  The first array determines all the rest. */
  ghost predicate Insertions(v: seq<seq<Elem>>, moves: seq<nat>, n: nat, cmp: Compar) {
    && |v| == |moves| + 1 && |moves| <= n
    && (forall k :: 0 <= k < |v| ==> |v[k]| == n)
    && forall k {:trigger InsertedAt(v, moves, k, cmp)} :: 0 <= k < |moves| ==> InsertedAt(v, moves, k, cmp)
  }

  ghost predicate InsertedAt(v: seq<seq<Elem>>, moves: seq<nat>, k: nat, cmp: Compar)
    requires k < |moves| < |v|
  {
    moves[k] <= k < |v[k]| && SinksTo(v[k], k - moves[k], k, cmp) && v[k + 1] == Rotated(v[k], k - moves[k], k)
  }

  lemma InsertNext(v: seq<seq<Elem>>, moves: seq<nat>, n: nat, cmp: Compar, q: nat, x: seq<Elem>)
    requires Insertions(v, moves, n, cmp) && |moves| < n && q <= |moves| && SinksTo(v[|moves|], q, |moves|, cmp)
    requires x == Rotated(v[|moves|], q, |moves|)
    ensures Insertions(v + [x], moves + [|moves| - q], n, cmp)
  {
    var v', moves' := v + [x], moves + [|moves| - q];
    forall k | 0 <= k < |moves'|
      ensures InsertedAt(v', moves', k, cmp)
    {
      if k < |moves| {
        assert InsertedAt(v, moves, k, cmp);
      }
    }
  }

  /** The insertion pass after its first ip elements: a sorted permutation of them, the rest untouched, and what was
      done so far. */
  ghost predicate Pass(e0: seq<Elem>, e: seq<Elem>, v: seq<seq<Elem>>, moves: seq<nat>, ip: nat, cmp: Compar, size: int) {
    && |moves| == ip <= |e0| == |e| && Insertions(v, moves, |e0|, cmp) && v[0] == e0 && v[ip] == e
    && multiset(e[..ip]) == multiset(e0[..ip]) && e[ip..] == e0[ip..]
    && (Consistent(cmp, size) ==> Sorted(e, 0, ip, cmp))
    && (NearSorted(e0, 0, |e0|, cmp) ==> forall k :: 0 <= k < ip ==> moves[k] <= 4)
  }

  lemma PassNext(e0: seq<Elem>, e: seq<Elem>, v: seq<seq<Elem>>, moves: seq<nat>, q: nat, p: nat, cmp: Compar, size: int)
    requires Pass(e0, e, v, moves, p, cmp, size) && q <= p < |e| && Sized(e, size) && SinksTo(e, q, p, cmp)
    ensures Pass(e0, Rotated(e, q, p), v + [Rotated(e, q, p)], moves + [p - q], p + 1, cmp, size)
  {
    PassStep(e0, e, q, p, cmp, size);
    InsertNext(v, moves, |e0|, cmp, q, Rotated(e, q, p));
  }

  /** `isort`.  `moves[k]` is how many swaps element k takes. */
  method Isort(a: array<byte>, hi: int, size: int, cmp: Compar, ghost e0: seq<Elem>)
    returns (ghost e: seq<Elem>, ghost v: seq<seq<Elem>>, ghost moves: seq<nat>)
    requires Views(a[..], size, e0) && hi == |e0| * size - size
    modifies a
    ensures Views(a[..], size, e) && multiset(e) == multiset(e0)
    ensures Consistent(cmp, size) ==> Sorted(e, 0, |e|, cmp)
    ensures |e| == |moves| == |e0| && Insertions(v, moves, |e0|, cmp) && v[0] == e0 && v[|e0|] == e
    ensures NearSorted(e0, 0, |e0|, cmp) ==> forall k :: 0 <= k < |moves| ==> moves[k] <= 4
  {
    ghost var n := |e0|;
    var p := 0;
    ghost var ip := 0;
    moves, e, v := [], e0, [e0];
    while p <= hi
      invariant 0 <= ip <= n && p == ip * size
      invariant Views(a[..], size, e) && Pass(e0, e, v, moves, ip, cmp, size)
      decreases n - ip
    {
      LastOffset(ip, n, size);
      Shift(ip, size);
      e, v, moves := InsertOne(a, p, size, cmp, e0, e, v, moves, ip);
      p, ip := p + size, ip + 1;
    }
    LastOffset(ip, n, size);
    assert e[..n] == e && e0[..n] == e0;
  }

  /** One round of that loop. */
  method InsertOne(a: array<byte>, p: int, size: int, cmp: Compar, ghost e0: seq<Elem>, ghost e: seq<Elem>,
                   ghost v: seq<seq<Elem>>, ghost moves: seq<nat>, ghost ip: nat)
    returns (ghost e': seq<Elem>, ghost v': seq<seq<Elem>>, ghost moves': seq<nat>)
    requires Views(a[..], size, e) && Pass(e0, e, v, moves, ip, cmp, size) && ip < |e0| && p == ip * size
    modifies a
    ensures Views(a[..], size, e') && Pass(e0, e', v', moves', ip + 1, cmp, size)
  {
    ViewsSized(a[..], size, e);
    ghost var iq := Sink(a, p, size, cmp, e, ip);
    PassNext(e0, e, v, moves, iq, ip, cmp, size);
    e' := Rotated(e, iq, ip);
    v', moves' := v + [e'], moves + [ip - iq];
  }

  lemma LastOffset(i: int, n: int, size: int)
    requires size > 0
    ensures i * size <= n * size - size <==> i < n
  {
    assert n * size - size == (n - 1) * size;
    OffsetOrder(i, n - 1, size);
  }

  /** One step of the insertion pass. */
  lemma PassStep(e0: seq<Elem>, e: seq<Elem>, q: nat, p: nat, cmp: Compar, size: int)
    requires q <= p < |e0| == |e| && multiset(e[..p]) == multiset(e0[..p]) && e[p..] == e0[p..] && Sized(e, size)
    requires Consistent(cmp, size) ==> Sorted(e, 0, p, cmp)
    requires SinksTo(e, q, p, cmp)
    ensures var r := Rotated(e, q, p);
            && multiset(r[..p + 1]) == multiset(e0[..p + 1]) && r[p + 1..] == e0[p + 1..]
            && (Consistent(cmp, size) ==> Sorted(r, 0, p + 1, cmp))
    ensures NearSorted(e0, 0, |e0|, cmp) ==> p - q <= 4
  {
    assert e[p] == e[p..][0] == e0[p..][0] == e0[p];
    assert e[p + 1..] == e[p..][1..] && e0[p + 1..] == e0[p..][1..];
    assert e[..p + 1] == e[..p] + [e[p]] && e0[..p + 1] == e0[..p] + [e0[p]];
    RotatePerm(e, q, p);
    if Consistent(cmp, size) {
      RotateSorted(e, q, p, cmp, size);
    }
    if NearSorted(e0, 0, |e0|, cmp) {
      FewMoves(e0, e, q, p, cmp);
    }
  }

  // ---------------------------------------------------------------- dual-pivot quicksort

  /** f is e with the places l .. h permuted. */
  ghost predicate Perm(e: seq<Elem>, f: seq<Elem>, l: int, h: int)
    requires 0 <= l <= h + 1 <= |e|
  {
    && |f| == |e|
    && (forall k :: 0 <= k < |e| && !(l <= k <= h) ==> f[k] == e[k])
    && multiset(f[l..h + 1]) == multiset(e[l..h + 1])
  }

  lemma PermTrans(e: seq<Elem>, f: seq<Elem>, g: seq<Elem>, l: int, h: int)
    requires 0 <= l <= h + 1 <= |e| && Perm(e, f, l, h) && Perm(f, g, l, h)
    ensures Perm(e, g, l, h)
  {
  }

  /** A permutation of a part is one of the whole. */
  lemma PermWiden(e: seq<Elem>, f: seq<Elem>, l: int, h: int, l': int, h': int)
    requires 0 <= l' <= l <= h + 1 <= h' + 1 <= |e| && Perm(e, f, l, h)
    ensures Perm(e, f, l', h')
  {
    assert e[l'..h' + 1] == e[l'..l] + e[l..h + 1] + e[h + 1..h' + 1];
    assert f[l'..h' + 1] == f[l'..l] + f[l..h + 1] + f[h + 1..h' + 1];
    assert e[l'..l] == f[l'..l] && e[h + 1..h' + 1] == f[h + 1..h' + 1];
  }

  lemma SwapPerm(e: seq<Elem>, i: nat, j: nat, l: int, h: int)
    requires 0 <= l <= i <= h < |e| && l <= j <= h
    ensures Perm(e, Swapped(e, i, j), l, h)
  {
    assert Swapped(e, i, j)[l..h + 1] == Swapped(e[l..h + 1], i - l, j - l);
  }

  /** What holds of every element of a part holds after permuting it. */
  lemma PermAll(e: seq<Elem>, f: seq<Elem>, l: int, h: int, p: Elem -> bool)
    requires 0 <= l <= h + 1 <= |e| && Perm(e, f, l, h) && forall k :: l <= k <= h ==> p(e[k])
    ensures forall k :: l <= k <= h ==> p(f[k])
  {
    forall k | l <= k <= h
      ensures p(f[k])
    {
      assert f[k] == f[l..h + 1][k - l];
      assert f[k] in multiset(e[l..h + 1]);
      var i :| 0 <= i < |e[l..h + 1]| && e[l..h + 1][i] == f[k];
      assert e[l + i] == f[k];
    }
  }

  /** The two pivots at places lt and gt split l .. h. */
  ghost predicate Split(e: seq<Elem>, l: int, h: int, lt: int, gt: int, p1: Elem, p2: Elem, cmp: Compar)
    requires 0 <= l <= lt < gt <= h < |e|
  {
    && e[lt] == p1 && e[gt] == p2
    && (forall k :: l <= k < lt ==> cmp(e[k], p1) < 0)
    && (forall k :: lt < k < gt ==> cmp(e[k], p1) >= 0 && cmp(p2, e[k]) >= 0)
    && (forall k :: gt < k <= h ==> cmp(p2, e[k]) < 0)
  }

  /** Sorting one of the three parts keeps the split. */
  lemma SplitKept(e: seq<Elem>, f: seq<Elem>, l: int, h: int, lt: int, gt: int, p1: Elem, p2: Elem, cmp: Compar, x: int, y: int)
    requires 0 <= l <= lt < gt <= h < |e| && Split(e, l, h, lt, gt, p1, p2, cmp)
    requires (x == l && y == lt - 1) || (x == lt + 1 && y == gt - 1) || (x == gt + 1 && y == h)
    requires Perm(e, f, x, y)
    ensures Split(f, l, h, lt, gt, p1, p2, cmp)
  {
    if x == l && y == lt - 1 {
      PermAll(e, f, x, y, v => cmp(v, p1) < 0);
    } else if x == lt + 1 && y == gt - 1 {
      PermAll(e, f, x, y, v => cmp(v, p1) >= 0 && cmp(p2, v) >= 0);
    } else {
      PermAll(e, f, x, y, v => cmp(p2, v) < 0);
    }
  }

  /** Near-sorted parts on both sides of the pivots make a near-sorted whole; between equal pivots nothing is
      left to sort. */
  lemma JoinNear(e: seq<Elem>, l: int, h: int, lt: int, gt: int, p1: Elem, p2: Elem, cmp: Compar, size: int)
    requires 0 <= l <= lt < gt <= h < |e| && Split(e, l, h, lt, gt, p1, p2, cmp) && Consistent(cmp, size) && Sized(e, size) && cmp(p2, p1) >= 0
    requires NearSorted(e, l, lt, cmp) && NearSorted(e, gt + 1, h + 1, cmp)
    requires NearSorted(e, lt + 1, gt, cmp) || cmp(p1, p2) >= 0
    ensures NearSorted(e, l, h + 1, cmp)
  {
    forall i, j | l <= i && i + 5 <= j < h + 1
      ensures cmp(e[i], e[j]) <= 0
    {
      if j < lt || i > gt {
      } else {
        ToPivots(e, l, h, lt, gt, p1, p2, cmp, size, i);
        ToPivots(e, l, h, lt, gt, p1, p2, cmp, size, j);
        assert Chain(cmp, e[i], p1, e[j]);
        assert Chain(cmp, e[i], p2, e[j]);
        assert Chain(cmp, e[i], p2, p1);
      }
    }
  }

  /** Where an element stands to the pivots. */
  lemma ToPivots(e: seq<Elem>, l: int, h: int, lt: int, gt: int, p1: Elem, p2: Elem, cmp: Compar, size: int, i: int)
    requires 0 <= l <= lt < gt <= h < |e| && Split(e, l, h, lt, gt, p1, p2, cmp) && Consistent(cmp, size) && Sized(e, size) && cmp(p2, p1) >= 0
    requires l <= i <= h
    ensures i <= lt ==> cmp(e[i], p1) <= 0
    ensures i >= lt ==> cmp(p1, e[i]) <= 0
    ensures i <= gt ==> cmp(e[i], p2) <= 0
    ensures i >= gt ==> cmp(p2, e[i]) <= 0
  {
    assert Chain(cmp, e[i], p1, p2);
    assert Chain(cmp, p1, p2, e[i]);
  }

  /** The AVG macro: the offset of the element num/den of the way from l to h. */
  lemma AvgIndex(l: int, h: int, num: int, den: int, size: int)
    requires size > 0 && den > 0 && num >= 0 && l <= h
    ensures den * size > 0
    ensures l * size + ((num * (h * size - l * size)) / (den * size)) * size == (l + num * (h - l) / den) * size
  {
    var d := h - l;
    var q, r := num * d / den, num * d % den;
    assert num * d == q * den + r;
    MulMono(1, den, size);
    MulMono(r + 1, den, size);
    MulMono(0, r, size);
    assert num * (h * size - l * size) == (num * d) * size == q * (den * size) + r * size by {
      assert h * size - l * size == d * size;
      assert num * (d * size) == (num * d) * size;
      assert (q * den + r) * size == (q * den) * size + r * size;
      assert (q * den) * size == q * (den * size);
    }
    DivModUnique(num * (h * size - l * size), den * size, q, r * size);
  }

  method Avg(hi: int, lo: int, num: int, den: int, size: int, ghost l: int, ghost h: int) returns (m: int)
    requires size > 0 && den > 0 && num >= 0 && l <= h && lo == l * size && hi == h * size
    ensures m == (l + num * (h - l) / den) * size
  {
    AvgIndex(l, h, num, den, size);
    m := lo + ((num * (hi - lo)) / (den * size)) * size;
  }

  lemma ThirdInside(l: int, h: int)
    requires l + 5 <= h
    ensures l < l + 1 * (h - l) / 3 < h && l < l + 2 * (h - l) / 3 < h
  {
  }

  /** Lines 29-32: two inner elements become the pivots, the smaller one first. */
  method ChoosePivots(a: array<byte>, lo: int, hi: int, size: int, cmp: Compar, ghost e0: seq<Elem>, ghost l: int, ghost h: int)
    returns (ghost e: seq<Elem>)
    requires Views(a[..], size, e0) && 0 <= l && l + 5 <= h < |e0| && lo == l * size && hi == h * size
    modifies a
    ensures Views(a[..], size, e) && Perm(e0, e, l, h) && (Consistent(cmp, size) ==> cmp(e[h], e[l]) >= 0)
  {
    e := e0;
    ThirdInside(l, h);
    ghost var x, y := l + 1 * (h - l) / 3, l + 2 * (h - l) / 3;
    var third := Avg(hi, lo, 1, 3, size, l, h);
    Swap(a, lo, third, size, e, l, x);
    SwapPerm(e, l, x, l, h);
    ghost var e1 := Swapped(e, l, x);
    var twoThirds := Avg(hi, lo, 2, 3, size, l, h);
    Swap(a, hi, twoThirds, size, e1, h, y);
    SwapPerm(e1, h, y, l, h);
    ghost var e2 := Swapped(e1, h, y);
    PermTrans(e0, e1, e2, l, h);
    e := e2;
    ViewsSized(a[..], size, e2);
    var c := Compare(a, hi, lo, size, cmp, e2, h, l);
    if c < 0 {
      Swap(a, lo, hi, size, e2, l, h);
      SwapPerm(e2, l, h, l, h);
      e := Swapped(e2, l, h);
      PermTrans(e0, e2, e, l, h);
    }
  }

  /** The state of the partition loop: pivots at the ends, then less than both, between, not yet seen, greater. */
  ghost predicate Partitioning(e: seq<Elem>, l: int, h: int, lt: int, i: int, gt: int, cmp: Compar) {
    && 0 <= l < lt <= i <= gt + 1 <= h < |e|
    && (forall k :: l < k < lt ==> cmp(e[k], e[l]) < 0)
    && (forall k :: lt <= k < i ==> cmp(e[k], e[l]) >= 0 && cmp(e[h], e[k]) >= 0)
    && (forall k :: gt < k < h ==> cmp(e[h], e[k]) < 0)
  }

  lemma Shift(i: int, size: int)
    ensures (i + 1) * size == i * size + size && (i - 1) * size == i * size - size
  {
  }

  /** Lines 34-55. */
  method PartitionLoop(a: array<byte>, lo: int, hi: int, size: int, cmp: Compar, ghost e0: seq<Elem>, ghost l: int, ghost h: int)
    returns (lt: int, gt: int, ghost e: seq<Elem>, ghost il: int, ghost ig: int)
    requires Views(a[..], size, e0) && 0 <= l && l + 5 <= h < |e0| && lo == l * size && hi == h * size
    modifies a
    ensures Views(a[..], size, e) && Perm(e0, e, l, h) && e[l] == e0[l] && e[h] == e0[h]
    ensures lt == il * size && gt == ig * size && Partitioning(e, l, h, il, ig + 1, ig, cmp)
  {
    e := e0;
    Shift(l, size);
    Shift(h, size);
    lt, gt := lo + size, hi - size;
    var i := lo + size;
    ghost var ii := l + 1;
    il, ig := l + 1, h - 1;
    while i <= gt
      invariant Views(a[..], size, e) && Partitioning(e, l, h, il, ii, ig, cmp) && Perm(e0, e, l, h)
      invariant e[l] == e0[l] && e[h] == e0[h]
      invariant lt == il * size && gt == ig * size && i == ii * size
      decreases ig - ii
    {
      OffsetOrder(ii, ig, size);
      Shift(il, size);
      Shift(ii, size);
      Shift(ig, size);
      var c := Compare(a, i, lo, size, cmp, e, ii, l);
      if c < 0 {
        Swap(a, lt, i, size, e, il, ii);
        e := StepDown(e0, e, l, h, il, ii, ig, cmp);
        lt, i, il, ii := lt + size, i + size, il + 1, ii + 1;
      } else {
        var d := Compare(a, hi, i, size, cmp, e, h, ii);
        if d < 0 {
          Swap(a, gt, i, size, e, ig, ii);
          e := StepUp(e0, e, l, h, il, ii, ig, cmp);
          gt, ig := gt - size, ig - 1;
        } else {
          i, ii := i + size, ii + 1;
        }
      }
    }
    OffsetOrder(ii, ig, size);
  }

  lemma StepDown(e0: seq<Elem>, e: seq<Elem>, l: int, h: int, lt: int, i: int, gt: int, cmp: Compar) returns (f: seq<Elem>)
    requires Partitioning(e, l, h, lt, i, gt, cmp) && i <= gt && cmp(e[i], e[l]) < 0 && |e0| == |e| && Perm(e0, e, l, h)
    ensures f == Swapped(e, lt, i) && Partitioning(f, l, h, lt + 1, i + 1, gt, cmp) && Perm(e0, f, l, h)
    ensures f[l] == e[l] && f[h] == e[h]
  {
    f := Swapped(e, lt, i);
    SwapPerm(e, lt, i, l, h);
    PermTrans(e0, e, f, l, h);
  }

  lemma StepUp(e0: seq<Elem>, e: seq<Elem>, l: int, h: int, lt: int, i: int, gt: int, cmp: Compar) returns (f: seq<Elem>)
    requires Partitioning(e, l, h, lt, i, gt, cmp) && i <= gt && cmp(e[h], e[i]) < 0 && |e0| == |e| && Perm(e0, e, l, h)
    ensures f == Swapped(e, gt, i) && Partitioning(f, l, h, lt, i, gt - 1, cmp) && Perm(e0, f, l, h)
    ensures f[l] == e[l] && f[h] == e[h]
  {
    f := Swapped(e, gt, i);
    SwapPerm(e, gt, i, l, h);
    PermTrans(e0, e, f, l, h);
  }

  /** Lines 56-59: the pivots move to the borders. */
  lemma PlaceSplit(e: seq<Elem>, l: int, h: int, lt: int, gt: int, cmp: Compar)
    requires Partitioning(e, l, h, lt, gt + 1, gt, cmp)
    ensures Split(Swapped(Swapped(e, l, lt - 1), h, gt + 1), l, h, lt - 1, gt + 1, e[l], e[h], cmp)
  {
    var e1 := Swapped(e, l, lt - 1);
    var f := Swapped(e1, h, gt + 1);
    assert f[lt - 1] == e[l] && f[gt + 1] == e[h];
    assert forall k :: l < k < lt - 1 || lt - 1 < k < gt + 1 || gt + 1 < k < h ==> f[k] == e[k];
    assert l < lt - 1 ==> f[l] == e[lt - 1];
    assert gt + 1 < h ==> f[h] == e[gt + 1];
  }

  lemma PlacePerm(e0: seq<Elem>, e: seq<Elem>, l: int, h: int, x: int, y: int)
    requires 0 <= l <= x <= h < |e| == |e0| && l <= y <= h && Perm(e0, e, l, h)
    ensures Perm(e0, Swapped(Swapped(e, l, x), h, y), l, h)
  {
    var e1 := Swapped(e, l, x);
    SwapPerm(e, l, x, l, h);
    PermTrans(e0, e, e1, l, h);
    SwapPerm(e1, h, y, l, h);
    PermTrans(e0, e1, Swapped(e1, h, y), l, h);
  }

  method PlacePivots(a: array<byte>, lo: int, hi: int, lt: int, gt: int, size: int, ghost e: seq<Elem>,
                     ghost l: nat, ghost h: nat, ghost il: nat, ghost ig: nat)
    requires Views(a[..], size, e) && l < |e| && h < |e| && il < |e| && ig < |e|
    requires lo == l * size && hi == h * size && lt == il * size && gt == ig * size
    modifies a
    ensures Views(a[..], size, Swapped(Swapped(e, l, il), h, ig))
  {
    Swap(a, lo, lt, size, e, l, il);
    Swap(a, hi, gt, size, Swapped(e, l, il), h, ig);
  }

  /** Lines 29-59. */
  method Partition(a: array<byte>, lo: int, hi: int, size: int, cmp: Compar, ghost e0: seq<Elem>, ghost l: int, ghost h: int)
    returns (lt: int, gt: int, ghost e: seq<Elem>, ghost il: int, ghost ig: int, ghost p1: Elem, ghost p2: Elem)
    requires Views(a[..], size, e0) && 0 <= l && l + 5 <= h < |e0| && lo == l * size && hi == h * size
    modifies a
    ensures Views(a[..], size, e) && Perm(e0, e, l, h) && l <= il < ig <= h && lt == il * size && gt == ig * size
    ensures Split(e, l, h, il, ig, p1, p2, cmp) && (Consistent(cmp, size) ==> cmp(p2, p1) >= 0)
  {
    ghost var e1 := ChoosePivots(a, lo, hi, size, cmp, e0, l, h);
    ghost var e2;
    lt, gt, e2, il, ig := PartitionLoop(a, lo, hi, size, cmp, e1, l, h);
    p1, p2 := e2[l], e2[h];
    Shift(il, size);
    Shift(ig, size);
    lt, gt := lt - size, gt + size;
    il, ig := il - 1, ig + 1;
    PlacePivots(a, lo, hi, lt, gt, size, e2, l, h, il, ig);
    e := Settled(e0, e1, e2, l, h, il, ig, cmp);
  }

  /** The loop's result with the pivots put in place is a split permutation. */
  lemma Settled(e0: seq<Elem>, e1: seq<Elem>, e2: seq<Elem>, l: nat, h: nat, il: nat, ig: nat, cmp: Compar) returns (e: seq<Elem>)
    requires l + 5 <= h < |e0| && |e1| == |e0| && Perm(e0, e1, l, h) && Perm(e1, e2, l, h) && Partitioning(e2, l, h, il + 1, ig, ig - 1, cmp)
    ensures e == Swapped(Swapped(e2, l, il), h, ig) && Perm(e0, e, l, h) && Split(e, l, h, il, ig, e2[l], e2[h], cmp)
  {
    PermTrans(e0, e1, e2, l, h);
    PlacePerm(e0, e2, l, h, il, ig);
    PlaceSplit(e2, l, h, il + 1, ig - 1, cmp);
    e := Swapped(Swapped(e2, l, il), h, ig);
  }

  /** `dsort`: a permutation of its range; near-sorted when the comparison is consistent. */
  method Dsort(a: array<byte>, lo: int, hi: int, size: int, cmp: Compar, ghost e0: seq<Elem>, ghost l: int, ghost h: int)
    returns (ghost e: seq<Elem>)
    requires Views(a[..], size, e0) && 0 <= l <= h + 1 <= |e0| && lo == l * size && hi == h * size
    modifies a
    ensures Views(a[..], size, e) && Perm(e0, e, l, h)
    ensures Consistent(cmp, size) ==> NearSorted(e, l, h + 1, cmp)
    decreases h - l + 1
  {
    e := e0;
    CutOff(l, h, size);
    if hi - 5 * size < lo { return; }
    var lt, gt;
    ghost var e1, il, ig, p1, p2;
    lt, gt, e1, il, ig, p1, p2 := Partition(a, lo, hi, size, cmp, e0, l, h);
    Shift(il, size);
    Shift(ig, size);
    ghost var e2 := Dsort(a, lo, lt - size, size, cmp, e1, l, il - 1);
    LeftDone(e0, e1, e2, l, h, il, ig, p1, p2, cmp, size);
    var c := Compare(a, lt, gt, size, cmp, e2, il, ig);
    ghost var e3 := e2;
    if c < 0 {
      e3 := Dsort(a, lt + size, gt - size, size, cmp, e2, il + 1, ig - 1);
    }
    MiddleDone(e0, e2, e3, l, h, il, ig, p1, p2, cmp, size);
    e := Dsort(a, gt + size, hi, size, cmp, e3, ig + 1, h);
    ViewsSized(a[..], size, e);
    RightDone(e0, e3, e, l, h, il, ig, p1, p2, cmp, size);
  }

  /** The left part is done: it is near-sorted and the split still holds. */
  lemma LeftDone(e0: seq<Elem>, e1: seq<Elem>, e2: seq<Elem>, l: int, h: int, lt: int, gt: int, p1: Elem, p2: Elem, cmp: Compar, size: int)
    requires 0 <= l <= lt < gt <= h < |e0| == |e1| && Perm(e0, e1, l, h) && Split(e1, l, h, lt, gt, p1, p2, cmp)
    requires Perm(e1, e2, l, lt - 1) && (Consistent(cmp, size) ==> NearSorted(e2, l, lt, cmp))
    ensures Perm(e0, e2, l, h) && Split(e2, l, h, lt, gt, p1, p2, cmp)
  {
    SplitKept(e1, e2, l, h, lt, gt, p1, p2, cmp, l, lt - 1);
    PermWiden(e1, e2, l, lt - 1, l, h);
    PermTrans(e0, e1, e2, l, h);
  }

  lemma MiddleDone(e0: seq<Elem>, e2: seq<Elem>, e3: seq<Elem>, l: int, h: int, lt: int, gt: int, p1: Elem, p2: Elem, cmp: Compar, size: int)
    requires 0 <= l <= lt < gt <= h < |e0| == |e2| && Perm(e0, e2, l, h) && Split(e2, l, h, lt, gt, p1, p2, cmp)
    requires Perm(e2, e3, lt + 1, gt - 1) && (Consistent(cmp, size) ==> NearSorted(e2, l, lt, cmp))
    ensures Perm(e0, e3, l, h) && Split(e3, l, h, lt, gt, p1, p2, cmp) && (Consistent(cmp, size) ==> NearSorted(e3, l, lt, cmp))
  {
    SplitKept(e2, e3, l, h, lt, gt, p1, p2, cmp, lt + 1, gt - 1);
    PermWiden(e2, e3, lt + 1, gt - 1, l, h);
    PermTrans(e0, e2, e3, l, h);
  }

  lemma RightDone(e0: seq<Elem>, e3: seq<Elem>, e: seq<Elem>, l: int, h: int, lt: int, gt: int, p1: Elem, p2: Elem, cmp: Compar, size: int)
    requires 0 <= l <= lt < gt <= h < |e0| == |e3| && Perm(e0, e3, l, h) && Split(e3, l, h, lt, gt, p1, p2, cmp)
    requires Perm(e3, e, gt + 1, h) && Sized(e, size)
    requires Consistent(cmp, size) ==> cmp(p2, p1) >= 0 && NearSorted(e3, l, lt, cmp) && NearSorted(e, gt + 1, h + 1, cmp)
    requires Consistent(cmp, size) ==> NearSorted(e3, lt + 1, gt, cmp) || cmp(p1, p2) >= 0
    ensures Perm(e0, e, l, h) && (Consistent(cmp, size) ==> NearSorted(e, l, h + 1, cmp))
  {
    SplitKept(e3, e, l, h, lt, gt, p1, p2, cmp, gt + 1, h);
    PermWiden(e3, e, gt + 1, h, l, h);
    PermTrans(e0, e3, e, l, h);
    if Consistent(cmp, size) {
      JoinNear(e, l, h, lt, gt, p1, p2, cmp, size);
    }
  }

  lemma CutOff(l: int, h: int, size: int)
    requires size > 0
    ensures h * size - 5 * size < l * size <==> h - 5 < l
  {
    assert h * size - 5 * size == (h - 5) * size;
    OffsetOrder(l, h - 5, size);
  }

  /** `qsort`: for every number of elements of every size, the bytes end up holding a permutation of the elements.  When
      the comparison is consistent, `dsort` leaves mid, where elements five or more apart are in order, and the
      insertion pass from there sorts with at most four swaps for each element. */
  method QsortBytes(a: array<byte>, nitems: nat, size: int, cmp: Compar, ghost e0: seq<Elem>)
    returns (ghost e: seq<Elem>, ghost mid: seq<Elem>, ghost v: seq<seq<Elem>>, ghost moves: seq<nat>)
    requires Views(a[..], size, e0) && |e0| == nitems
    modifies a
    ensures Views(a[..], size, e) && multiset(e) == multiset(e0) == multiset(mid)
    ensures |moves| == |e| == |mid| == nitems && Insertions(v, moves, nitems, cmp) && v[0] == mid && v[nitems] == e
    ensures Consistent(cmp, size) ==> Sorted(e, 0, |e|, cmp) && NearSorted(mid, 0, nitems, cmp)
    ensures Consistent(cmp, size) ==> forall k :: 0 <= k < nitems ==> moves[k] <= 4
  {
    mid := Dsort(a, 0, nitems * size - size, size, cmp, e0, 0, nitems - 1);
    assert mid[0..nitems] == mid && e0[0..nitems] == e0;
    e, v, moves := Isort(a, nitems * size - size, size, cmp, mid);
  }
}
