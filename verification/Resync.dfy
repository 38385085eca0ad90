// What removing unfinished frames from the front of a buffer leaves, for a start and an end marker.

module Resync {
  import opened Sequences

  /** What remains of c: from the start of its first finished frame, else from an unfinished one, else nothing. */
  function Clean<T(==)>(c: seq<T>, start: T, end: T): (r: seq<T>)
    ensures |r| <= |c|
    decreases |c|
  {
    var iEnd := FindFirst(c, end);
    if iEnd == |c| then
      c[FindLast(c, start)..]
    else
      var iElement := FindLast(c[..iEnd], start);
      if iElement == iEnd then Clean(c[iEnd + 1..], start, end) else c[iElement..]
  }

  /** The count the source returns: a line end found at the very front is popped but not counted. */
  function Reported<T(==)>(c: seq<T>, start: T, end: T): nat
    decreases |c|
  {
    var iEnd := FindFirst(c, end);
    if iEnd == |c| then
      FindLast(c, start)
    else if iEnd == 0 then
      Reported(c[1..], start, end)
    else
      var iElement := FindLast(c[..iEnd], start);
      if iElement == iEnd then iEnd + 1 + Reported(c[iEnd + 1..], start, end) else iElement
  }

  /** c[i..j] is a finished frame: a start, an end, and neither in between. */
  ghost predicate IsFrame<T>(c: seq<T>, i: int, j: int, start: T, end: T) {
    && 0 <= i < j < |c| && c[i] == start && c[j] == end
    && forall k :: i < k < j ==> c[k] != start && c[k] != end
  }

  /** c[i..] is an unfinished frame at the very end. */
  ghost predicate IsUnfinished<T>(c: seq<T>, i: int, start: T, end: T) {
    0 <= i < |c| && c[i] == start && start !in c[i + 1..] && end !in c[i + 1..]
  }

  /** k is where a resynchronised buffer starts: no frame is lost, and nothing precedes the first one. */
  ghost predicate IsFront<T(!new)>(c: seq<T>, k: int, start: T, end: T) {
    && 0 <= k <= |c|
    && (forall i, j :: IsFrame(c, i, j, start, end) ==> k <= i)
    && (forall i :: IsUnfinished(c, i, start, end) ==> k <= i)
    && (k == |c| || IsUnfinished(c, k, start, end) || exists j :: IsFrame(c, k, j, start, end))
  }

  lemma FrontUnique<T(!new)>(c: seq<T>, k: int, k': int, start: T, end: T)
    requires IsFront(c, k, start, end) && IsFront(c, k', start, end)
    ensures k == k'
  {
  }

  lemma CleanSuffix<T>(c: seq<T>, start: T, end: T)
    ensures Clean(c, start, end) == c[|c| - |Clean(c, start, end)|..]
    decreases |c|
  {
    hide *;
    var iEnd := FindFirst(c, end);
    if iEnd == |c| {
      CleanNoEnd(c, start, end);
    } else if FindLast(c[..iEnd], start) == iEnd {
      DropLine(c, iEnd, start, end);
      CleanSuffix(c[iEnd + 1..], start, end);
    } else {
      KeepLine(c, iEnd, start, end);
    }
  }

  lemma {:induction false} FrontKept<T(!new)>(c: seq<T>, start: T, end: T)
    requires start != end
    ensures IsFront(c, |c| - |Clean(c, start, end)|, start, end)
    ensures Clean(c, start, end) == c[|c| - |Clean(c, start, end)|..]
    decreases |c|
  {
    hide *;
    CleanSuffix(c, start, end);
    var k := |c| - |Clean(c, start, end)|;
    var iEnd := FindFirst(c, end);
    if iEnd == |c| {
      CleanNoEnd(c, start, end);
      assert c[..iEnd] == c;
      FrontWithoutEnd(c, k, start, end);
    } else if FindLast(c[..iEnd], start) == iEnd {
      DropLine(c, iEnd, start, end);
      FrontKept(c[iEnd + 1..], start, end);
      assert c[..iEnd + 1] == c[..iEnd] + [end];
      LaterFrames(c, iEnd, k, start, end);
    } else {
      KeepLine(c, iEnd, start, end);
      FrontInFirstLine(c, iEnd, k, start, end);
    }
  }

  /** With one marker for both, everything is dropped. */
  lemma {:induction false} SameMarkers<T>(c: seq<T>, marker: T)
    ensures Clean(c, marker, marker) == []
    decreases |c|
  {
    var iEnd := FindFirst(c, marker);
    if iEnd < |c| {
      FindLastAbsent(c[..iEnd], marker);
      SameMarkers(c[iEnd + 1..], marker);
    } else {
      assert c[..|c|] == c;
      FindLastAbsent(c, marker);
    }
  }

  /**
   * Whatever the buffer holds, resynchronising drops exactly what precedes its first frame; with one marker for both
   * start and end, it drops everything.
   */
  lemma CleanIsFront<T(!new)>(c: seq<T>, start: T, end: T)
    ensures start != end ==> IsFront(c, |c| - |Clean(c, start, end)|, start, end)
    ensures start == end ==> Clean(c, start, end) == []
    ensures Clean(c, start, end) == c[|c| - |Clean(c, start, end)|..]
  {
    hide Clean, IsFront;
    if start == end {
      SameMarkers(c, start);
    } else {
      FrontKept(c, start, end);
    }
  }

  lemma FrontWithoutEnd<T(!new)>(c: seq<T>, k: nat, start: T, end: T)
    requires end !in c && k == FindLast(c, start)
    ensures IsFront(c, k, start, end)
  {
    if k < |c| {
      assert IsUnfinished(c, k, start, end);
    }
  }

  lemma FrontInFirstLine<T(!new)>(c: seq<T>, iEnd: nat, k: nat, start: T, end: T)
    requires iEnd < |c| && c[iEnd] == end && end !in c[..iEnd] && start != end
    requires k == FindLast(c[..iEnd], start) < iEnd
    ensures IsFront(c, k, start, end)
  {
    var line := c[..iEnd];
    assert forall m :: k < m < iEnd ==> c[m] == line[k + 1..][m - k - 1];
    assert forall m :: 0 <= m < iEnd ==> c[m] == line[m];
    assert IsFrame(c, k, iEnd, start, end);
  }

  /** With no start before the first end, the frames of c are those of what follows it. */
  lemma LaterFrames<T(!new)>(c: seq<T>, iEnd: nat, k: nat, start: T, end: T)
    requires iEnd < |c| && start !in c[..iEnd + 1]
    requires iEnd + 1 <= k <= |c| && IsFront(c[iEnd + 1..], k - iEnd - 1, start, end)
    ensures IsFront(c, k, start, end)
  {
    hide IsFrame, IsUnfinished;
    var n := iEnd + 1;
    var c' := c[n..];
    forall i, j | IsFrame(c, i, j, start, end) ensures k <= i {
      FrameAfter(c, n, i, j, start, end);
    }
    forall i | IsUnfinished(c, i, start, end) ensures k <= i {
      UnfinishedAfter(c, n, i, start, end);
    }
    if k < |c| && !IsUnfinished(c', k - n, start, end) {
      var j' :| IsFrame(c', k - n, j', start, end);
      FrameBefore(c, n, k - n, j', start, end);
    } else if k < |c| {
      UnfinishedBefore(c, n, k - n, start, end);
    }
  }

  lemma FrameAfter<T>(c: seq<T>, n: nat, i: int, j: int, start: T, end: T)
    requires 0 < n <= |c| && start !in c[..n] && IsFrame(c, i, j, start, end)
    ensures IsFrame(c[n..], i - n, j - n, start, end)
  {
    assert forall m :: 0 <= m < n ==> c[m] == c[..n][m];
    assert forall m :: 0 <= m < |c| - n ==> c[n..][m] == c[m + n];
  }

  lemma FrameBefore<T>(c: seq<T>, n: nat, i: int, j: int, start: T, end: T)
    requires n <= |c| && IsFrame(c[n..], i, j, start, end)
    ensures IsFrame(c, i + n, j + n, start, end)
  {
    assert forall m :: n <= m < |c| ==> c[m] == c[n..][m - n];
  }

  lemma UnfinishedAfter<T>(c: seq<T>, n: nat, i: int, start: T, end: T)
    requires 0 < n <= |c| && start !in c[..n] && IsUnfinished(c, i, start, end)
    ensures IsUnfinished(c[n..], i - n, start, end)
  {
    assert forall m :: 0 <= m < n ==> c[m] == c[..n][m];
    assert c[n..][i - n + 1..] == c[i + 1..];
  }

  lemma UnfinishedBefore<T>(c: seq<T>, n: nat, i: int, start: T, end: T)
    requires n <= |c| && IsUnfinished(c[n..], i, start, end)
    ensures IsUnfinished(c, i + n, start, end)
  {
    assert c[n..][i + 1..] == c[i + n + 1..];
  }

  /** c is empty, or starts with a start marker and has no other before its first end marker. */
  predicate AtFrame<T(==)>(c: seq<T>, start: T, end: T) {
    c == [] || (c[0] == start && start != end && forall m :: 0 < m < FindFirst(c, end) ==> c[m] != start)
  }

  /** A buffer that is already at a frame is left alone. */
  lemma {:induction false} CleanFixed<T>(c: seq<T>, start: T, end: T)
    requires AtFrame(c, start, end)
    ensures Clean(c, start, end) == c
  {
    if c != [] {
      var iEnd := FindFirst(c, end);
      var line := c[..iEnd];
      assert line[0] == start && start !in line[1..];
      FindLastUnique(line, start, 0);
      if iEnd == |c| {
        assert line == c;
      }
      assert c[0..] == c;
    }
  }

  lemma CleanNoEnd<T>(c: seq<T>, start: T, end: T)
    requires FindFirst(c, end) == |c|
    ensures Clean(c, start, end) == c[FindLast(c, start)..]
    ensures Reported(c, start, end) == FindLast(c, start)
  {
  }

  /** A line without a start marker is dropped whole, and counted unless it is empty. */
  lemma DropLine<T>(c: seq<T>, iEnd: nat, start: T, end: T)
    requires iEnd == FindFirst(c, end) < |c| && FindLast(c[..iEnd], start) == iEnd
    ensures Clean(c, start, end) == Clean(c[iEnd + 1..], start, end)
    ensures Reported(c, start, end) == (if iEnd == 0 then 0 else iEnd + 1) + Reported(c[iEnd + 1..], start, end)
  {
  }

  /** A line with a start marker is kept from its last start marker on. */
  lemma KeepLine<T>(c: seq<T>, iEnd: nat, start: T, end: T)
    requires iEnd == FindFirst(c, end) < |c| && FindLast(c[..iEnd], start) < iEnd
    ensures Clean(c, start, end) == c[FindLast(c[..iEnd], start)..]
    ensures Reported(c, start, end) == FindLast(c[..iEnd], start)
  {
  }

  lemma {:induction false} ShapeKept<T>(c: seq<T>, start: T, end: T)
    requires start != end
    ensures AtFrame(Clean(c, start, end), start, end)
    decreases |c|
  {
    var iEnd := FindFirst(c, end);
    var r := Clean(c, start, end);
    if iEnd == |c| {
      var i := FindLast(c, start);
      if i < |c| { assert r[1..] == c[i + 1..]; }
    } else {
      var i := FindLast(c[..iEnd], start);
      if i == iEnd {
        ShapeKept(c[iEnd + 1..], start, end);
      } else {
        assert r[..iEnd - i] == c[..iEnd][i..];
        FindFirstUnique(r, end, iEnd - i);
        assert forall m :: 0 < m < iEnd - i ==> r[m] == c[..iEnd][i + 1..][m - 1];
      }
    }
  }

  lemma CleanShape<T>(c: seq<T>, start: T, end: T)
    ensures AtFrame(Clean(c, start, end), start, end)
  {
    hide Clean;
    if start == end {
      SameMarkers(c, start);
    } else {
      ShapeKept(c, start, end);
    }
  }

  lemma CleanIdempotent<T>(c: seq<T>, start: T, end: T)
    ensures Clean(Clean(c, start, end), start, end) == Clean(c, start, end)
  {
    hide Clean;
    CleanShape(c, start, end);
    CleanFixed(Clean(c, start, end), start, end);
  }

  /** The number of empty lines in s. */
  function EmptyLines<T(==)>(s: seq<T>, end: T): nat
    decreases |s|
  {
    var i := FindFirst(s, end);
    if i == |s| then 0 else (if i == 0 then 1 else 0) + EmptyLines(s[i + 1..], end)
  }

  /** Is there an end marker at k with nothing, or another end marker, right before it? */
  predicate EmptyLineAt<T(==)>(s: seq<T>, k: int, end: T) {
    0 <= k < |s| && s[k] == end && (k == 0 || s[k - 1] == end)
  }

  lemma EmptyLineInRest<T>(s: seq<T>, i: nat, k: int, end: T)
    requires i == FindFirst(s, end) < |s| && 0 <= k
    ensures EmptyLineAt(s, i + 1 + k, end) <==> EmptyLineAt(s[i + 1..], k, end)
  {
    hide FindFirst;
    if 0 < k < |s| - i - 1 {
      assert s[i + 1..][k - 1] == s[i + k];
    }
  }

  lemma EmptyLineAtFront<T>(s: seq<T>, i: nat, k: int, end: T)
    requires i == FindFirst(s, end) < |s| && 0 <= k <= i
    ensures EmptyLineAt(s, k, end) <==> i == 0
  {
    assert k < i ==> s[..i][k] == s[k];
    assert 0 < k == i ==> s[..i][k - 1] == s[k - 1];
  }

  lemma {:induction false} NoEmptyLines<T>(s: seq<T>, end: T)
    ensures EmptyLines(s, end) == 0 <==> forall k :: !EmptyLineAt(s, k, end)
    decreases |s|
  {
    var i := FindFirst(s, end);
    if i < |s| {
      var t := s[i + 1..];
      NoEmptyLines(t, end);
      assert EmptyLines(s, end) == (if i == 0 then 1 else 0) + EmptyLines(t, end);
      hide EmptyLines, EmptyLineAt, FindFirst;
      EmptyLineAtFront(s, i, i, end);
      if i == 0 {
        assert EmptyLineAt(s, 0, end);
      } else {
        NoneAtFront(s, i, end);
        if k :| EmptyLineAt(t, k, end) {
          InRange(t, k, end);
          EmptyLineInRest(s, i, k, end);
        }
      }
    } else {
      forall k ensures !EmptyLineAt(s, k, end) {
        assert s[..|s|] == s;
      }
    }
  }

  lemma InRange<T>(s: seq<T>, k: int, end: T)
    requires EmptyLineAt(s, k, end)
    ensures 0 <= k < |s|
  {
  }

  lemma NoneAtFront<T>(s: seq<T>, i: nat, end: T)
    requires 0 < i == FindFirst(s, end) < |s|
    ensures forall k :: EmptyLineAt(s, k, end) ==> EmptyLineAt(s[i + 1..], k - i - 1, end)
  {
    forall k | EmptyLineAt(s, k, end) ensures EmptyLineAt(s[i + 1..], k - i - 1, end) {
      if k <= i {
        EmptyLineAtFront(s, i, k, end);
      } else {
        EmptyLineInRest(s, i, k - i - 1, end);
      }
    }
  }

  lemma NoLines<T>(s: seq<T>, end: T)
    requires end !in s
    ensures EmptyLines(s, end) == 0
  {
    FindFirstAbsent(s, end);
  }

  lemma EmptyLinesStep<T>(line: seq<T>, rest: seq<T>, end: T)
    requires end !in line
    ensures EmptyLines(line + [end] + rest, end) == (if line == [] then 1 else 0) + EmptyLines(rest, end)
  {
    var s := line + [end] + rest;
    assert s[..|line|] == line && s[|line| + 1..] == rest;
    FindFirstUnique(s, end, |line|);
  }

  lemma RemovedAfterDrop<T>(c: seq<T>, iEnd: nat, start: T, end: T)
    requires iEnd == FindFirst(c, end) < |c| && FindLast(c[..iEnd], start) == iEnd
    ensures var c' := c[iEnd + 1..];
      c[..|c| - |Clean(c, start, end)|] == c[..iEnd] + [end] + c'[..|c'| - |Clean(c', start, end)|]
  {
    hide *;
    DropLine(c, iEnd, start, end);
    assert c[iEnd] == end;
  }

  lemma {:induction false} ReportedCount<T>(c: seq<T>, start: T, end: T)
    ensures var removed := c[..|c| - |Clean(c, start, end)|];
      Reported(c, start, end) == |removed| - EmptyLines(removed, end)
    decreases |c|
  {
    hide *;
    var iEnd := FindFirst(c, end);
    if iEnd < |c| && FindLast(c[..iEnd], start) == iEnd {
      var c' := c[iEnd + 1..];
      ReportedCount(c', start, end);
      DropLine(c, iEnd, start, end);
      RemovedAfterDrop(c, iEnd, start, end);
      EmptyLinesStep(c[..iEnd], c'[..|c'| - |Clean(c', start, end)|], end);
    } else {
      if iEnd < |c| { KeepLine(c, iEnd, start, end); } else { CleanNoEnd(c, start, end); }
      var removed := c[..|c| - |Clean(c, start, end)|];
      assert removed == c[..iEnd][..|removed|];
      NoLines(removed, end);
    }
  }

  lemma EmptyLineRemoved<T>(c: seq<T>, q: nat, k: int, end: T)
    requires q <= |c|
    ensures EmptyLineAt(c[..q], k, end) <==> k < q && EmptyLineAt(c, k, end)
  {
  }

  /** An empty line is removed unless a complete frame starts before it. */
  lemma RemovedUnlessFramed<T(!new)>(c: seq<T>, k: int, start: T, end: T)
    requires EmptyLineAt(c, k, end)
    ensures k < |c| - |Clean(c, start, end)| <==> !(start != end && exists i, j :: i < k && IsFrame(c, i, j, start, end))
  {
    hide Clean;
    CleanIsFront(c, start, end);
    if start != end {
      var q := |c| - |Clean(c, start, end)|;
      UnfinishedHasNoEnd(c, q, start, end);
    }
  }

  lemma UnfinishedHasNoEnd<T>(c: seq<T>, i: int, start: T, end: T)
    ensures IsUnfinished(c, i, start, end) ==> forall k :: i < k < |c| ==> c[k] != end
  {
    if IsUnfinished(c, i, start, end) {
      forall k | i < k < |c| ensures c[k] != end {
        assert c[k] == c[i + 1..][k - i - 1];
      }
    }
  }

  /**
   * The documentation promises the number of removed elements. The code returns that number less the empty lines it
   * removed: the promise is kept exactly when a complete frame starts before every empty line of the buffer.
   */
  lemma ReportedExact<T(!new)>(c: seq<T>, start: T, end: T)
    ensures Reported(c, start, end) == |c| - |Clean(c, start, end)| <==>
      forall k :: EmptyLineAt(c, k, end) ==> start != end && exists i, j :: i < k && IsFrame(c, i, j, start, end)
  {
    hide *;
    var q := |c| - |Clean(c, start, end)|;
    ReportedCount(c, start, end);
    NoEmptyLines(c[..q], end);
    forall k ensures EmptyLineAt(c[..q], k, end) <==> k < q && EmptyLineAt(c, k, end) {
      EmptyLineRemoved(c, q, k, end);
    }
    forall k | EmptyLineAt(c, k, end)
      ensures k < q <==> !(start != end && exists i, j :: i < k && IsFrame(c, i, j, start, end))
    {
      RemovedUnlessFramed(c, k, start, end);
    }
  }

  lemma ReportedExample()
    ensures Clean([10, 62], 62, 10) == [62]
    ensures Reported([10, 62], 62, 10) == 0 != |[10, 62]| - |Clean([10, 62], 62, 10)|
  {
    assert [10, 62][1..] == [62];
  }
}
