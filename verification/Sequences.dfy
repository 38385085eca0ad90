// The bounded sequences a ring stands for, and the searches made in them.

module Sequences {
  import opened Mask

  type byte = bv8

  /** The bytes of a ring that starts at `start` in the window `w`: n bytes, continuing at the front of w. */
  ghost function Unroll<T>(w: seq<T>, start: nat, n: nat): (s: seq<T>)
    requires start < |w| && n <= |w|
  {
    (w + w)[start..start + n]
  }

  /** A sequence of at most `cap` elements after x is pushed on its back: a full one loses its front. */
  function PushedBack<T>(s: seq<T>, x: T, cap: nat): (r: seq<T>)
    requires 0 < cap && |s| <= cap
  {
    if |s| == cap then s[1..] + [x] else s + [x]
  }

  function PushedFront<T>(s: seq<T>, x: T, cap: nat): (r: seq<T>)
    requires 0 < cap && |s| <= cap
  {
    if |s| == cap then [x] + s[..cap - 1] else [x] + s
  }

  /** All of xs pushed in order: what survives is the last `cap` elements of s + xs. */
  function PushedAll<T>(s: seq<T>, xs: seq<T>, cap: nat): (r: seq<T>)
    requires 0 < cap && |s| <= cap
    ensures |r| <= cap
  {
    if |s + xs| <= cap then s + xs else (s + xs)[|s + xs| - cap..]
  }

  /** Index of the first x in s, or |s|. */
  function FindFirst<T(==)>(s: seq<T>, x: T): (i: nat)
    ensures i <= |s| && x !in s[..i] && (i < |s| ==> s[i] == x)
  {
    if s == [] || s[0] == x then 0
    else
      var i := FindFirst(s[1..], x) + 1;
      assert s[..i] == [s[0]] + s[1..][..i - 1];
      i
  }

  /** Index of the last x in s, or |s|. */
  function FindLast<T(==)>(s: seq<T>, x: T): (i: nat)
    ensures i <= |s|
    ensures i < |s| ==> s[i] == x && x !in s[i + 1..]
    ensures i == |s| ==> x !in s
  {
    var n := |s|;
    if s == [] then 0
    else if s[n - 1] == x then n - 1
    else
      var i := FindLast(s[..n - 1], x);
      assert s == s[..n - 1] + [s[n - 1]];
      assert i < n - 1 ==> s[i + 1..] == s[..n - 1][i + 1..] + [s[n - 1]];
      if i == n - 1 then n else i
  }

  function Count<T(==)>(s: seq<T>, x: T): nat {
    if s == [] then 0 else Count(s[..|s| - 1], x) + if s[|s| - 1] == x then 1 else 0
  }

  lemma CountIsMultiplicity<T>(s: seq<T>, x: T)
    ensures Count(s, x) == multiset(s)[x]
  {
    if s != [] {
      CountIsMultiplicity(s[..|s| - 1], x);
      assert s == s[..|s| - 1] + [s[|s| - 1]];
    }
  }

  lemma FindFirstUnique<T>(s: seq<T>, x: T, i: nat)
    requires i < |s| && s[i] == x && x !in s[..i]
    ensures FindFirst(s, x) == i
  {
  }

  lemma FindFirstAbsent<T>(s: seq<T>, x: T)
    requires x !in s
    ensures FindFirst(s, x) == |s|
  {
  }

  lemma FindLastUnique<T>(s: seq<T>, x: T, i: nat)
    requires i < |s| && s[i] == x && x !in s[i + 1..]
    ensures FindLast(s, x) == i
  {
  }

  lemma FindLastAbsent<T>(s: seq<T>, x: T)
    requires x !in s
    ensures FindLast(s, x) == |s|
  {
  }

  lemma UnrollIndex<T>(w: seq<T>, start: nat, n: nat, i: nat)
    requires start < |w| && i < n <= |w|
    ensures Unroll(w, start, n)[i] == w[if start + i < |w| then start + i else start + i - |w|]
  {
  }

  lemma SliceOfSlice<T>(s: seq<T>, x: nat, y: nat, a: nat, b: nat)
    requires x <= y <= |s| && a <= b <= y - x
    ensures s[x..y][a..b] == s[x + a..x + b]
  {
    assert forall i :: 0 <= i < b - a ==> s[x..y][a..b][i] == s[x..y][a + i] == s[x + a..x + b][i];
  }

  /** A slice that does not reach the end of the window is a slice of the window. */
  lemma UnrollStraight<T>(w: seq<T>, start: nat, n: nat, a: nat, b: nat)
    requires start < |w| && a <= b <= n <= |w| && start + b <= |w|
    ensures Unroll(w, start, n)[a..b] == w[start + a..start + b]
  {
    SliceOfSlice(w + w, start, start + n, a, b);
  }

  /** A slice that crosses the end of the window is made of two. */
  lemma UnrollAcross<T>(w: seq<T>, start: nat, n: nat, a: nat, b: nat)
    requires start < |w| && a <= b <= n <= |w| && start + a <= |w| <= start + b
    ensures Unroll(w, start, n)[a..b] == w[start + a..] + w[..start + b - |w|]
  {
    UnrollLength(w, start, n);
    hide Unroll;
    var r := w[start + a..] + w[..start + b - |w|];
    forall i | 0 <= i < b - a ensures Unroll(w, start, n)[a..b][i] == r[i] {
      UnrollIndex(w, start, n, a + i);
    }
  }

  lemma UnrollDrop<T>(w: seq<T>, start: nat, n: nat, k: nat)
    requires start < |w| && k <= n <= |w|
    ensures Unroll(w, if k == n then 0 else Wrap(start + k, |w|), n - k) == Unroll(w, start, n)[k..]
  {
    var next := if k == n then 0 else Wrap(start + k, |w|);
    UnrollLength(w, start, n);
    UnrollLength(w, next, n - k);
    hide Unroll;
    forall i | 0 <= i < n - k ensures Unroll(w, next, n - k)[i] == Unroll(w, start, n)[k..][i] {
      UnrollIndex(w, start, n, k + i);
      UnrollIndex(w, next, n - k, i);
    }
  }

  lemma UnrollTake<T>(w: seq<T>, start: nat, n: nat, k: nat)
    requires start < |w| && k <= n <= |w|
    ensures Unroll(w, start, k) == Unroll(w, start, n)[..k]
  {
    UnrollLength(w, start, n);
    UnrollLength(w, start, k);
    hide Unroll;
    forall i | 0 <= i < k ensures Unroll(w, start, k)[i] == Unroll(w, start, n)[..k][i] {
      UnrollIndex(w, start, n, i);
      UnrollIndex(w, start, k, i);
    }
  }

  lemma UnrollLength<T>(w: seq<T>, start: nat, n: nat)
    requires start < |w| && n <= |w|
    ensures |Unroll(w, start, n)| == n
  {
  }

  lemma UnrollNone<T>(w: seq<T>, start: nat)
    requires start < |w|
    ensures Unroll(w, start, 0) == []
  {
  }

  lemma PushedBackIndex<T>(s: seq<T>, x: T, cap: nat)
    requires 0 < cap && |s| <= cap
    ensures var r, d := PushedBack(s, x, cap), if |s| == cap then 1 else 0;
      && |r| == |s| + 1 - d && r[|r| - 1] == x
      && forall i :: 0 <= i < |r| - 1 ==> r[i] == s[i + d]
  {
  }

  lemma PushedFrontIndex<T>(s: seq<T>, x: T, cap: nat)
    requires 0 < cap && |s| <= cap
    ensures var r, d := PushedFront(s, x, cap), if |s| == cap then 1 else 0;
      && |r| == |s| + 1 - d && r[0] == x
      && forall i :: 0 < i < |r| ==> r[i] == s[i - 1]
  {
  }

  lemma UnrollPushBackAt<T>(w: seq<T>, start: nat, n: nat, x: T, i: nat)
    requires start < |w| && n <= |w|
    requires i < if n == |w| then n else n + 1
    ensures var w', d := w[Wrap(start + n, |w|) := x], if n == |w| then 1 else 0;
      |Unroll(w, start, n)| == n && |Unroll(w', Wrap(start + d, |w|), n + 1 - d)| == n + 1 - d
      && Unroll(w', Wrap(start + d, |w|), n + 1 - d)[i] == if i == n - d then x else Unroll(w, start, n)[i + d]
  {
    hide Unroll;
    var d := if n == |w| then 1 else 0;
    var w' := w[Wrap(start + n, |w|) := x];
    UnrollLength(w, start, n);
    UnrollLength(w', Wrap(start + d, |w|), n + 1 - d);
    UnrollIndex(w', Wrap(start + d, |w|), n + 1 - d, i);
    if i < n - d {
      UnrollIndex(w, start, n, i + d);
    }
  }

  lemma UnrollPushBack<T>(w: seq<T>, start: nat, n: nat, x: T)
    requires start < |w| && n <= |w|
    ensures var stop := Wrap(start + n, |w|);
      var next := if n == |w| then Wrap(start + 1, |w|) else start;
      var size := if n == |w| then n else n + 1;
      Unroll(w[stop := x], next, size) == PushedBack(Unroll(w, start, n), x, |w|)
  {
    var w', d := w[Wrap(start + n, |w|) := x], if n == |w| then 1 else 0;
    var next, size := Wrap(start + d, |w|), n + 1 - d;
    UnrollLength(w, start, n);
    UnrollLength(w', next, size);
    PushedBackIndex(Unroll(w, start, n), x, |w|);
    hide Unroll, PushedBack;
    forall i | 0 <= i < size
      ensures Unroll(w', next, size)[i] == PushedBack(Unroll(w, start, n), x, |w|)[i]
    {
      UnrollPushBackAt(w, start, n, x, i);
    }
  }

  lemma UnrollPushFront<T>(w: seq<T>, start: nat, n: nat, x: T)
    requires start < |w| && n <= |w|
    ensures var next := if start == 0 then |w| - 1 else start - 1;
      var size := if n == |w| then n else n + 1;
      Unroll(w[next := x], next, size) == PushedFront(Unroll(w, start, n), x, |w|)
  {
    var next := if start == 0 then |w| - 1 else start - 1;
    var size := if n == |w| then n else n + 1;
    var w' := w[next := x];
    UnrollLength(w, start, n);
    UnrollLength(w', next, size);
    PushedFrontIndex(Unroll(w, start, n), x, |w|);
    hide Unroll, PushedFront;
    forall i | 0 <= i < size
      ensures Unroll(w', next, size)[i] == PushedFront(Unroll(w, start, n), x, |w|)[i]
    {
      UnrollIndex(w', next, size, i);
      if i > 0 {
        UnrollIndex(w, start, n, i - 1);
      }
    }
  }

  /** Where a ring's front is after n pushes on its back, if it was at `front` with `size` elements. */
  function FrontAfter(front: nat, size: nat, n: nat, cap: nat): nat
    requires 0 < cap
  {
    if size + n <= cap then front else (front + size + n - cap) % cap
  }

  lemma FrontNone(front: nat, size: nat, cap: nat)
    requires 0 < cap && size <= cap
    ensures FrontAfter(front, size, 0, cap) == front
  {
  }

  lemma FrontNext(front: nat, size: nat, n: nat, cap: nat)
    requires front < cap && size <= cap
    ensures FrontAfter(front, size, n, cap) < cap
    ensures FrontAfter(front, size, n + 1, cap)
      == if size + n < cap then FrontAfter(front, size, n, cap) else Wrap(FrontAfter(front, size, n, cap) + 1, cap)
  {
    if size + n >= cap {
      NextModulus(front + size + n - cap, cap);
      if size + n == cap {
        DivisionUnique(front, cap, 0, front);
      }
    }
  }

  lemma NextModulus(x: nat, cap: nat)
    requires 0 < cap
    ensures (x + 1) % cap == Wrap(x % cap + 1, cap)
  {
    var q, r := x / cap, x % cap;
    if r + 1 < cap {
      DivisionUnique(x + 1, cap, q, r + 1);
    } else {
      assert cap * (q + 1) == cap * q + cap;
      DivisionUnique(x + 1, cap, q + 1, 0);
    }
  }

  lemma PushedAllSize<T>(s: seq<T>, xs: seq<T>, cap: nat)
    requires 0 < cap && |s| <= cap
    ensures |PushedAll(s, xs, cap)| == if |s| + |xs| <= cap then |s| + |xs| else cap
  {
  }

  lemma PushedAllNone<T>(s: seq<T>, xs: seq<T>, cap: nat)
    requires 0 < cap && |s| <= cap
    ensures PushedAll(s, xs[..0], cap) == s
  {
    assert s + [] == s;
  }

  lemma PushedAllNext<T>(s: seq<T>, xs: seq<T>, i: nat, cap: nat)
    requires 0 < cap && |s| <= cap && i < |xs|
    ensures PushedBack(PushedAll(s, xs[..i], cap), xs[i], cap) == PushedAll(s, xs[..i + 1], cap)
  {
    var t := s + xs[..i];
    assert s + xs[..i + 1] == t + [xs[i]];
    if |t| >= cap {
      var r := t[|t| - cap..];
      assert PushedAll(s, xs[..i], cap) == r;
      assert (t + [xs[i]])[|t| + 1 - cap..] == r[1..] + [xs[i]];
    }
  }

  lemma Associates<T>(x: seq<T>, y: seq<T>, z: seq<T>)
    ensures (x + y) + z == x + (y + z)
  {
  }

  lemma PrefixStep<T>(s: seq<T>, i: nat)
    requires i < |s|
    ensures s[..i + 1] == s[..i] + [s[i]]
  {
  }

  lemma SliceToEnd<T>(s: seq<T>, k: nat)
    requires k <= |s|
    ensures s[k..|s|] == s[k..]
  {
  }
}
