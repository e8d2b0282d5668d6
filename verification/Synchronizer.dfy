/**
 The frame synchroniser: the inner `while (!ready)` loop of `main` in decode.c.
 It is a two-state machine over the byte stream. Seeking holds no marker byte
 (`df0 == 0`); Armed holds one (`df0 == 1`, the byte in `df[0]`).

 The input is a finite byte sequence. When it runs out before a frame is
 complete the synchroniser returns None; what the source does at that point is
 modelled separately in module EndOfInput.
 */
module Synchronizer {

  import opened Wrappers
  import opened Framing

  datatype SyncState = Seeking | Armed(marker: byte)

  datatype StepResult = Continue(next: SyncState) | Complete(frame: Frame)

  /** A held marker byte always has its marker bit set. */
  predicate ValidState(st: SyncState) {
    st.Armed? ==> IsMarker(st.marker)
  }

  /** One pass of the inner loop for the byte `b` just read: a marker byte arms
      the synchroniser or replaces the held marker; a clear byte completes the
      frame when armed and is discarded otherwise. */
  function Step(st: SyncState, b: byte): StepResult {
    if IsMarker(b) then Continue(Armed(b))
    else match st
      case Seeking => Continue(Seeking)
      case Armed(m) => Complete(Frame(m, b))
  }

  /** The bytes the state stands for: the held marker, if any. */
  function Held(st: SyncState): seq<byte> {
    match st
    case Seeking => []
    case Armed(m) => [m]
  }

  /** Runs the inner loop from state `st` over `s`. On success it returns the
      frame and the bytes after its data byte. */
  function Scan(st: SyncState, s: seq<byte>): (r: Option<(Frame, seq<byte>)>)
    ensures r.Some? ==> |r.value.1| < |s|
    decreases |s|
  {
    if |s| == 0 then None
    else match Step(st, s[0])
      case Complete(f) => Some((f, s[1..]))
      case Continue(next) => Scan(next, s[1..])
  }

  /** Where a scan's frame comes from: the data byte is the last byte consumed
      and is clear; the marker byte is the byte before it, or the held marker
      when the scan consumed only the data byte. */
  lemma {:induction false} ScanShape(st: SyncState, s: seq<byte>)
    ensures var r := Scan(st, s);
      r.Some? ==>
      var (f, rest) := r.value;
      && rest == s[|s| - |rest|..]
      && f.data == s[|s| - |rest| - 1]
      && !IsMarker(f.data)
      && (ValidState(st) ==> f.Valid())
      && (|s| - |rest| >= 2 ==> f.marker == s[|s| - |rest| - 2])
      && (|s| - |rest| == 1 ==> st.Armed? && f.marker == st.marker)
    decreases |s|
  {
    if |s| > 0 {
      match Step(st, s[0])
      case Complete(f) =>
      case Continue(next) =>
        ScanShape(next, s[1..]);
        var r := Scan(next, s[1..]);
        if r.Some? {
          var rest := r.value.1;
          var n := |s| - |rest|;
          assert s[1..][n - 1..] == s[n..];
          assert n >= 2 ==> s[1..][n - 2] == s[n - 1];
          assert n >= 3 ==> s[1..][n - 3] == s[n - 2];
        }
    }
  }

  /** One frame search as `main` starts it: unarmed (`df0 = 0; ready = 0`). */
  function Sync(s: seq<byte>): (r: Option<(Frame, seq<byte>)>)
    ensures r.Some? ==>
      var (f, rest) := r.value;
      var j := |s| - |rest| - 1;
      && 1 <= j && rest == s[j + 1..]
      && f == Frame(s[j - 1], s[j])
      && f.Valid()
      && |rest| <= |s| - 2
  {
    ScanShape(Seeking, s);
    Scan(Seeking, s)
  }

  // ---------------------------------------------------------------------
  // Reference definition: frame boundaries in the byte sequence
  // ---------------------------------------------------------------------

  /** Index `j` holds a clear byte that directly follows a marker byte. */
  predicate IsBoundary(s: seq<byte>, j: int) {
    1 <= j < |s| && IsMarker(s[j - 1]) && !IsMarker(s[j])
  }

  predicate FirstBoundary(s: seq<byte>, j: int) {
    IsBoundary(s, j) && forall k :: 1 <= k < j ==> !IsBoundary(s, k)
  }

  predicate NoBoundary(s: seq<byte>) {
    forall k :: 1 <= k < |s| ==> !IsBoundary(s, k)
  }

  /** From any state whose held marker has its marker bit set, the scan stops
      at the first boundary of the held marker followed by the input, and pairs the two bytes on either side of it. */
  lemma {:induction false} ScanFirstBoundary(st: SyncState, s: seq<byte>, j: int)
    requires ValidState(st)
    requires FirstBoundary(Held(st) + s, j)
    ensures var t := Held(st) + s;
      Scan(st, s) == Some((Frame(t[j - 1], t[j]), t[j + 1..]))
    decreases |s|, 1
  {
    var t := Held(st) + s;
    assert |s| > 0;
    if IsMarker(s[0]) {
      ScanFirstBoundaryMarker(st, s, j);
    } else if st.Seeking? {
      assert t == s;
      ScanFirstBoundaryClear(s, j);
    } else {
      assert IsBoundary(t, 1);
      assert j == 1;
      assert t[2..] == s[1..];
    }
  }

  /** The case of a marker byte: it becomes the held marker. */
  lemma {:induction false} ScanFirstBoundaryMarker(st: SyncState, s: seq<byte>, j: int)
    requires ValidState(st)
    requires FirstBoundary(Held(st) + s, j)
    requires |s| > 0 && IsMarker(s[0])
    ensures var t := Held(st) + s;
      Scan(st, s) == Some((Frame(t[j - 1], t[j]), t[j + 1..]))
    decreases |s|, 0
  {
    var t := Held(st) + s;
    var b := s[0];
    assert Scan(st, s) == Scan(Armed(b), s[1..]);
    assert Held(Armed(b)) + s[1..] == s;
    if st.Armed? {
      assert t[1..] == s && t[1] == b;
      FirstBoundaryTail(t, j);
      ScanFirstBoundary(Armed(b), s[1..], j - 1);
    } else {
      assert t == s;
      ScanFirstBoundary(Armed(b), s[1..], j);
    }
  }

  /** The case of a clear byte read while unarmed: it is discarded. */
  lemma {:induction false} ScanFirstBoundaryClear(s: seq<byte>, j: int)
    requires FirstBoundary(s, j)
    requires |s| > 0 && !IsMarker(s[0])
    ensures Scan(Seeking, s) == Some((Frame(s[j - 1], s[j]), s[j + 1..]))
    decreases |s|, 0
  {
    assert Scan(Seeking, s) == Scan(Seeking, s[1..]);
    FirstBoundaryTail(s, j);
    assert Held(Seeking) + s[1..] == s[1..];
    ScanFirstBoundary(Seeking, s[1..], j - 1);
  }

  /** A first boundary past index 1 is still the first one after the first
      byte is dropped. */
  lemma FirstBoundaryTail(t: seq<byte>, j: int)
    requires FirstBoundary(t, j) && !IsBoundary(t, 1)
    ensures j >= 2 && FirstBoundary(t[1..], j - 1)
    ensures t[1..][j - 2] == t[j - 1] && t[1..][j - 1] == t[j] && t[1..][j..] == t[j + 1..]
  {
    var t' := t[1..];
    forall k | 1 <= k < j - 1
      ensures !IsBoundary(t', k)
    {
      assert !IsBoundary(t, k + 1);
    }
  }

  /** From any state whose held marker has its marker bit set, an input
      without boundaries yields no frame. */
  lemma {:induction false} ScanNoBoundary(st: SyncState, s: seq<byte>)
    requires ValidState(st)
    requires NoBoundary(Held(st) + s)
    ensures Scan(st, s) == None
    decreases |s|
  {
    if |s| > 0 {
      var t := Held(st) + s;
      var b := s[0];
      match st
      case Seeking =>
        assert t == s;
        var t' := s[1..];
        if IsMarker(b) {
          assert Held(Armed(b)) + t' == s;
          ScanNoBoundary(Armed(b), t');
        } else {
          assert NoBoundary(t') by {
            forall k ensures !IsBoundary(t', k) {
              assert !IsBoundary(s, k + 1);
            }
          }
          assert Held(Seeking) + t' == t';
          ScanNoBoundary(Seeking, t');
        }
      case Armed(m) =>
        assert !IsBoundary(t, 1);
        assert IsMarker(b);
        assert Held(Armed(b)) + s[1..] == s;
        assert NoBoundary(s) by {
          forall k ensures !IsBoundary(s, k) {
            assert !IsBoundary(t, k + 1);
          }
        }
        ScanNoBoundary(Armed(b), s[1..]);
    }
  }

  /** Every boundary has a first one at or before it. */
  lemma {:induction false} HasFirstBoundary(s: seq<byte>, j: int) returns (i: int)
    requires IsBoundary(s, j)
    ensures FirstBoundary(s, i) && i <= j
    decreases j
  {
    if forall k :: 1 <= k < j ==> !IsBoundary(s, k) {
      i := j;
    } else {
      var k :| 1 <= k < j && IsBoundary(s, k);
      i := HasFirstBoundary(s, k);
    }
  }

  /** Sync pairs the two bytes around the first boundary and resumes after it. */
  lemma SyncAtFirstBoundary(s: seq<byte>, j: int)
    requires FirstBoundary(s, j)
    ensures Sync(s) == Some((Frame(s[j - 1], s[j]), s[j + 1..]))
  {
    assert Held(Seeking) + s == s;
    ScanFirstBoundary(Seeking, s, j);
  }

  /** Sync finds no frame exactly when the input has no boundary. */
  lemma SyncNoneIffNoBoundary(s: seq<byte>)
    ensures Sync(s).None? <==> NoBoundary(s)
  {
    if NoBoundary(s) {
      assert Held(Seeking) + s == s;
      ScanNoBoundary(Seeking, s);
    } else if Sync(s).None? {
      var j :| IsBoundary(s, j);
      var i := HasFirstBoundary(s, j);
      SyncAtFirstBoundary(s, i);
    }
  }

  /** The frame Sync returns always sits at the first boundary of the input. */
  lemma SyncFindsFirstBoundary(s: seq<byte>)
    requires Sync(s).Some?
    ensures FirstBoundary(s, |s| - |Sync(s).value.1| - 1)
  {
    var rest := Sync(s).value.1;
    var j := |s| - |rest| - 1;
    assert IsBoundary(s, j);
    var i := HasFirstBoundary(s, j);
    SyncAtFirstBoundary(s, i);
  }

  // ---------------------------------------------------------------------
  // The framing rules, one lemma each
  // ---------------------------------------------------------------------

  /** After a run of marker bytes and one clear byte, the frame's marker byte
      is the LAST byte of the run, and the scan resumes after the clear byte. */
  lemma MarkerRunResyncs(run: seq<byte>, d: byte, rest: seq<byte>)
    requires |run| >= 1
    requires forall i :: 0 <= i < |run| ==> IsMarker(run[i])
    requires !IsMarker(d)
    ensures Sync(run + [d] + rest) == Some((Frame(run[|run| - 1], d), rest))
  {
    var s := run + [d] + rest;
    var j := |run|;
    assert IsBoundary(s, j);
    assert s[j - 1] == run[j - 1] && s[j] == d;
    forall k | 1 <= k < j
      ensures !IsBoundary(s, k)
    {
      assert s[k] == run[k];
    }
    SyncAtFirstBoundary(s, j);
    assert s[j + 1..] == rest;
  }

  /** Clear bytes read while unarmed are discarded. */
  lemma {:induction false} ClearBytesDiscarded(z: seq<byte>, s: seq<byte>)
    requires forall i :: 0 <= i < |z| ==> !IsMarker(z[i])
    ensures Sync(z + s) == Sync(s)
    decreases |z|
  {
    if |z| > 0 {
      var u := z + s;
      assert u[0] == z[0] && Step(Seeking, u[0]) == Continue(Seeking);
      assert u[1..] == z[1..] + s;
      assert Sync(u) == Scan(Seeking, u[1..]);
      ClearBytesDiscarded(z[1..], s);
    } else {
      assert z + s == s;
    }
  }

  /** Once armed, the data byte is the first clear byte read; the marker byte
      is the held one, replaced by every marker byte read before that. */
  lemma ArmedTakesFirstClear(m: byte, s: seq<byte>, k: int)
    requires IsMarker(m)
    requires 0 <= k < |s| && !IsMarker(s[k])
    requires forall i :: 0 <= i < k ==> IsMarker(s[i])
    ensures Scan(Armed(m), s)
         == Some((Frame(if k == 0 then m else s[k - 1], s[k]), s[k + 1..]))
  {
    var t := [m] + s;
    assert Held(Armed(m)) + s == t;
    forall i | 1 <= i < k + 1
      ensures !IsBoundary(t, i)
    {
      assert t[i] == s[i - 1];
    }
    assert FirstBoundary(t, k + 1);
    ScanFirstBoundary(Armed(m), s, k + 1);
    assert t[k + 2..] == s[k + 1..];
  }

  /** Armed and only marker bytes left: the input runs out with no frame. */
  lemma ArmedAtEndOfInput(m: byte, s: seq<byte>)
    requires IsMarker(m)
    requires forall i :: 0 <= i < |s| ==> IsMarker(s[i])
    ensures Scan(Armed(m), s) == None
  {
    var t := [m] + s;
    assert Held(Armed(m)) + s == t;
    forall k ensures !IsBoundary(t, k) {
      if 1 <= k < |t| {
        assert t[k] == s[k - 1];
      }
    }
    ScanNoBoundary(Armed(m), s);
  }

  /** Sync on an input with no boundary, ending unarmed, followed by more input
      behaves as Sync on the rest alone. */
  lemma SyncSkipsUnarmedPrefix(s: seq<byte>, t: seq<byte>)
    requires NoBoundary(s)
    requires |s| == 0 || !IsMarker(s[|s| - 1])
    ensures Sync(s + t) == Sync(t)
  {
    var u := s + t;
    // A boundary of s + t lies inside t.
    forall k | 1 <= k <= |s|
      ensures !IsBoundary(u, k)
    {
      assert u[k - 1] == s[k - 1];
      if k < |s| {
        assert u[k] == s[k] && !IsBoundary(s, k);
      }
    }
    forall k | |s| < k < |u|
      ensures IsBoundary(u, k) == IsBoundary(t, k - |s|)
    {
      assert u[k - 1] == t[k - |s| - 1] && u[k] == t[k - |s|];
    }
    if Sync(t).None? {
      SyncNoneIffNoBoundary(t);
      SyncNoneIffNoBoundary(u);
    } else {
      var rest := Sync(t).value.1;
      var j := |t| - |rest| - 1;
      SyncFindsFirstBoundary(t);
      assert IsBoundary(u, j + |s|) by {
        assert u[j + |s| - 1] == t[j - 1] && u[j + |s|] == t[j];
      }
      assert FirstBoundary(u, j + |s|);
      SyncAtFirstBoundary(u, j + |s|);
      SyncAtFirstBoundary(t, j);
      assert u[j + |s| - 1] == t[j - 1] && u[j + |s|] == t[j];
      assert u[j + |s| + 1..] == t[j + 1..];
    }
  }

  // ---------------------------------------------------------------------
  // All frames of an input
  // ---------------------------------------------------------------------

  /** The frames the outer loop obtains: each search restarts unarmed on the
      bytes after the previous data byte. Each frame consumes at least two
      bytes. */
  function Frames(s: seq<byte>): (fs: seq<Frame>)
    ensures 2 * |fs| <= |s|
    ensures forall i :: 0 <= i < |fs| ==> fs[i].Valid()
    decreases |s|
  {
    match Sync(s)
    case None => []
    case Some((f, rest)) => [f] + Frames(rest)
  }

  /** A frame found in `s` is found the same way when more input follows. */
  lemma SyncExtends(s: seq<byte>, t: seq<byte>)
    requires Sync(s).Some?
    ensures Sync(s + t) == Some((Sync(s).value.0, Sync(s).value.1 + t))
  {
    var u := s + t;
    var rest := Sync(s).value.1;
    var j := |s| - |rest| - 1;
    SyncFindsFirstBoundary(s);
    assert u[j - 1] == s[j - 1] && u[j] == s[j];
    forall k | 1 <= k < j
      ensures !IsBoundary(u, k)
    {
      assert u[k - 1] == s[k - 1] && u[k] == s[k];
      assert !IsBoundary(s, k);
    }
    SyncAtFirstBoundary(u, j);
    assert u[j + 1..] == rest + t;
  }

  /** After a clear byte the synchroniser is always unarmed, so the frames of
      a concatenation split at any clear byte. */
  lemma {:induction false} FramesSplitAtClearByte(s: seq<byte>, t: seq<byte>)
    requires |s| == 0 || !IsMarker(s[|s| - 1])
    ensures Frames(s + t) == Frames(s) + Frames(t)
    decreases |s|
  {
    if Sync(s).None? {
      SyncNoneIffNoBoundary(s);
      SyncSkipsUnarmedPrefix(s, t);
      assert Frames(s) == [];
      assert Frames(s + t) == Frames(t);
      assert [] + Frames(t) == Frames(t);
    } else {
      var f := Sync(s).value.0;
      var rest := Sync(s).value.1;
      SyncExtends(s, t);
      assert |rest| == 0 || rest[|rest| - 1] == s[|s| - 1];
      FramesSplitAtClearByte(rest, t);
      var a, b := Frames(rest), Frames(t);
      assert Frames(s) == [f] + a;
      assert Frames(s + t) == [f] + (a + b);
      ConcatAssoc([f], a, b);
    }
  }

  lemma ConcatAssoc<T>(x: seq<T>, y: seq<T>, z: seq<T>)
    ensures x + (y + z) == (x + y) + z
  {
  }

  /** Every frame is a pair of adjacent input bytes around a boundary. */
  lemma {:induction false} FramesAreInputPairs(s: seq<byte>, i: int) returns (j: int)
    requires 0 <= i < |Frames(s)|
    ensures IsBoundary(s, j) && Frames(s)[i] == Frame(s[j - 1], s[j])
    decreases |s|
  {
    var r := Sync(s);
    assert r.Some?;
    var f := r.value.0;
    var rest := r.value.1;
    var d := |s| - |rest| - 1;
    assert Frames(s) == [f] + Frames(rest);
    if i == 0 {
      j := d;
    } else {
      var j' := FramesAreInputPairs(rest, i - 1);
      assert rest[j' - 1] == s[d + j'] && rest[j'] == s[d + 1 + j'];
      j := d + 1 + j';
    }
  }

  /** Every boundary of the input gives a frame: the outer loop drops no pair
      of a marker byte followed by a clear byte. */
  lemma {:induction false} FramesCoverBoundaries(s: seq<byte>, j: int) returns (i: int)
    requires IsBoundary(s, j)
    ensures 0 <= i < |Frames(s)| && Frames(s)[i] == Frame(s[j - 1], s[j])
    decreases |s|
  {
    SyncNoneIffNoBoundary(s);
    SyncFindsFirstBoundary(s);
    var f := Sync(s).value.0;
    var rest := Sync(s).value.1;
    var d := |s| - |rest| - 1;
    assert Frames(s) == [f] + Frames(rest);
    if j == d {
      i := 0;
    } else {
      // j is not before the first boundary d, and j = d + 1 would need s[d]
      // to be a marker byte.
      assert j > d + 1;
      assert rest[j - d - 2] == s[j - 1] && rest[j - d - 1] == s[j];
      var i' := FramesCoverBoundaries(rest, j - d - 1);
      i := i' + 1;
    }
  }
}
