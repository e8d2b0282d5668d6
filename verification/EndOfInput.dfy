/**
 End of input as decode.c actually handles it. The inner framing loop never
 tests the `eof` flag; once the input is exhausted, `readbyte` hands back the
 byte 0 and sets `eof`, and only the outer loop looks at the flag.
 - Armed at the end: the 0 completes one more frame whose data byte is 0x00.
   Its record is printed, and then the outer loop stops.
 - Seeking at the end: a 0 is a clear byte and is discarded, so the state does
   not change. Every further read goes to the closed stream, which C leaves
   undefined; it is assumed to fail again and so to yield 0 (both failure
   branches of `readbyte` set the byte to 0), and the loop never stops.
 The clean model in modules Synchronizer and Session ends the session at the
 end of input instead. The lemmas here compare the two.
 */
module EndOfInput {

  import opened Framing
  import opened Synchronizer
  import opened Decoder
  import opened Output
  import opened Session

  /** What `readbyte` returns once the input is exhausted. */
  const ByteAfterEnd: byte := 0

  /** Outcome of one frame search as written: a frame (possibly completed by
      the byte read past the end), or a search that never returns. */
  datatype SourceScan = Framed(frame: Frame, rest: seq<byte>, atEnd: bool) | Spins

  /** The inner loop of decode.c with the reads past the end included. */
  function ScanAsWritten(st: SyncState, s: seq<byte>): (r: SourceScan)
    ensures r.Framed? && !r.atEnd ==> |r.rest| < |s|
    ensures r.Framed? && r.atEnd ==> r.rest == [] && r.frame.data == ByteAfterEnd
    decreases |s|
  {
    if |s| == 0 then
      match Step(st, ByteAfterEnd)
      case Complete(f) => Framed(f, [], true)
      case Continue(_) => Spins
    else match Step(st, s[0])
      case Complete(f) => Framed(f, s[1..], false)
      case Continue(next) => ScanAsWritten(next, s[1..])
  }

  /** Seeking, the byte read past the end leaves the state as it was: the
      search reads the same byte into the same state forever. */
  lemma SeekingPastEndIsStuck()
    ensures Step(Seeking, ByteAfterEnd) == Continue(Seeking)
  {
  }

  /** How a search over bytes `t` without a boundary ends in the source: with
      a phantom frame when the last byte is a marker byte, else never. */
  function EndOfSearch(t: seq<byte>): SourceScan {
    if |t| > 0 && IsMarker(t[|t| - 1]) then Framed(Frame(t[|t| - 1], ByteAfterEnd), [], true)
    else Spins
  }

  /** The search as written agrees with the clean one whenever the clean one
      finds a frame; otherwise it ends as EndOfSearch says. */
  lemma {:induction false} ScanAsWrittenAgrees(st: SyncState, s: seq<byte>)
    requires ValidState(st)
    ensures Scan(st, s).Some? ==>
      ScanAsWritten(st, s) == Framed(Scan(st, s).value.0, Scan(st, s).value.1, false)
    ensures Scan(st, s).None? ==> ScanAsWritten(st, s) == EndOfSearch(Held(st) + s)
    decreases |s|
  {
    if |s| == 0 {
      assert Held(st) + s == Held(st);
    } else {
      match Step(st, s[0])
      case Complete(f) =>
      case Continue(next) =>
        ScanAsWrittenAgrees(next, s[1..]);
        var t := Held(st) + s;
        var t' := Held(next) + s[1..];
        if |s| > 1 {
          assert t[|t| - 1] == s[|s| - 1] == t'[|t'| - 1];
        } else if IsMarker(s[0]) {
          assert t' == [s[0]] && t[|t| - 1] == s[0];
        } else {
          assert t' == [] && t[|t| - 1] == s[0];
        }
    }
  }

  /** The frames the source's loops produce, and whether the program stops. */
  function SourceFrames(s: seq<byte>): (r: (seq<Frame>, bool))
    decreases |s|
  {
    match ScanAsWritten(Seeking, s)
    case Spins => ([], false)
    case Framed(f, rest, atEnd) =>
      if atEnd then ([f], true)
      else
        var (fs, halts) := SourceFrames(rest);
        ([f] + fs, halts)
  }

  /** The source stops exactly when the input is non-empty and ends on a
      marker byte; it then adds a frame of that byte and 0x00 after the real
      frames. Otherwise it prints the real frames and never stops. */
  lemma {:induction false} SourceFramesClosedForm(s: seq<byte>)
    ensures SourceFrames(s) ==
      if |s| > 0 && IsMarker(s[|s| - 1])
      then (Frames(s) + [Frame(s[|s| - 1], ByteAfterEnd)], true)
      else (Frames(s), false)
    decreases |s|
  {
    assert Held(Seeking) + s == s;
    ScanAsWrittenAgrees(Seeking, s);
    if Sync(s).Some? {
      var f := Sync(s).value.0;
      var rest := Sync(s).value.1;
      assert ScanAsWritten(Seeking, s) == Framed(f, rest, false);
      var tail := SourceFrames(rest);
      assert SourceFrames(s) == ([f] + tail.0, tail.1);
      assert Frames(s) == [f] + Frames(rest);
      SourceFramesClosedForm(rest);
      if |rest| > 0 {
        assert rest[|rest| - 1] == s[|s| - 1];
        ConcatAssoc([f], Frames(rest), [Frame(s[|s| - 1], ByteAfterEnd)]);
      } else {
        assert !IsMarker(s[|s| - 1]);
        assert Sync(rest).None?;
        assert Frames(rest) == [];
      }
    } else {
      assert Frames(s) == [];
      assert ScanAsWritten(Seeking, s) == EndOfSearch(s);
      if |s| > 0 && IsMarker(s[|s| - 1]) {
        var f := Frame(s[|s| - 1], ByteAfterEnd);
        assert SourceFrames(s) == ([f], true);
        assert Frames(s) + [f] == [f];
      } else {
        assert SourceFrames(s) == ([], false);
      }
    }
  }

  /** What the program prints, and whether it stops. */
  datatype SourceRun = SourceRun(records: seq<Record>, halts: bool)

  function RunAsWritten(s: seq<byte>, clock: nat -> string): SourceRun {
    var (fs, halts) := SourceFrames(s);
    SourceRun(Emit(Readings(fs), 0, 0, clock).0, halts)
  }

  lemma ReadingsAppend(a: seq<Frame>, b: seq<Frame>)
    ensures Readings(a + b) == Readings(a) + Readings(b)
  {
  }

  /** The session fold over a concatenation is the fold over the first part
      followed by the fold over the second, from the counter the first left. */
  lemma {:induction false} EmitAppend(a: seq<Sample>, b: seq<Sample>, count: nat, done: nat, clock: nat -> string)
    ensures var first := Emit(a, count, done, clock);
      Emit(a + b, count, done, clock).0 == first.0 + Emit(b, first.1, done + |a|, clock).0
    decreases |a|
  {
    if |a| == 0 {
      assert a + b == b;
    } else {
      var next := Tick(count).1;
      assert (a + b)[1..] == a[1..] + b;
      assert (a + b)[0] == a[0];
      EmitAppend(a[1..], b, next, done + 1, clock);
      var x := Emit(a, count, done, clock).0;
      var y := Emit(b, Emit(a, count, done, clock).1, done + |a|, clock).0;
      ConcatAssoc([x[0]], Emit(a[1..], next, done + 1, clock).0, y);
    }
  }

  /** The printed records are the clean model's records, followed by one
      phantom record exactly when the program stops; it stops exactly when the
      input is non-empty and ends on a marker byte. */
  lemma RunAsWrittenVsRun(s: seq<byte>, clock: nat -> string)
    ensures RunAsWritten(s, clock).halts <==> |s| > 0 && IsMarker(s[|s| - 1])
    ensures |RunAsWritten(s, clock).records|
         == |Run(s, clock)| + (if RunAsWritten(s, clock).halts then 1 else 0)
    ensures RunAsWritten(s, clock).records[..|Run(s, clock)|] == Run(s, clock)
    ensures RunAsWritten(s, clock).halts ==>
      RunAsWritten(s, clock).records[|Run(s, clock)|].sample
        == Decode(Frame(s[|s| - 1], ByteAfterEnd))
  {
    SourceFramesClosedForm(s);
    var fs := Frames(s);
    if |s| > 0 && IsMarker(s[|s| - 1]) {
      var extra := [Frame(s[|s| - 1], ByteAfterEnd)];
      ReadingsAppend(fs, extra);
      EmitAppend(Readings(fs), Readings(extra), 0, 0, clock);
      var first := Emit(Readings(fs), 0, 0, clock);
      var last := Emit(Readings(extra), first.1, |fs|, clock);
      EmitSampleAt(Readings(extra), first.1, |fs|, clock, 0);
      var out := first.0 + last.0;
      assert out[..|first.0|] == first.0;
      assert out[|first.0|] == last.0[0];
    }
  }

  /** The frame counter the raw mode reports once the loop has ended. The
      loop ends only after the phantom frame, so the report counts it too. */
  lemma AsWrittenFinalCounter(s: seq<byte>, clock: nat -> string)
    requires SourceFrames(s).1
    ensures Emit(Readings(SourceFrames(s).0), 0, 0, clock).1 == (|Frames(s)| + 1) % 100
  {
    SourceFramesClosedForm(s);
    EmitFinalCount(Readings(SourceFrames(s).0), 0, 0, clock);
  }

  /** Input 0x03 alone: the clean model prints nothing, the source prints the
      phantom record `0,16,42` (marker 0x03, data byte 0x00) and stops. */
  lemma PhantomFrameExample(clock: nat -> string)
    ensures Run([0x03], clock) == []
    ensures RunAsWritten([0x03], clock) == SourceRun([Record("0", Sample(16, 42))], true)
  {
    var s: seq<byte> := [0x03];
    assert NoBoundary(s);
    SyncNoneIffNoBoundary(s);
    assert Frames(s) == [];
    SourceFramesClosedForm(s);
    assert SourceFrames(s) == ([Frame(0x03, 0x00)], true);
    assert Decode(Frame(0x03, 0x00)) == Sample(16, 42);
    assert Readings([Frame(0x03, 0x00)]) == [Sample(16, 42)];
  }

  /** The empty input, and any input whose last byte is clear (for instance
      one that ends right after a complete frame): the search is seeking when
      the input runs out, so the program prints the real records and never
      stops. */
  lemma CleanEndNeverStops(s: seq<byte>, clock: nat -> string)
    requires |s| == 0 || !IsMarker(s[|s| - 1])
    ensures SourceFrames(s) == (Frames(s), false)
    ensures RunAsWritten(s, clock) == SourceRun(Run(s, clock), false)
  {
    SourceFramesClosedForm(s);
  }

  /** Input 0x03, 0x20: the one record is printed, and the program never stops. */
  lemma CleanEndExample(clock: nat -> string)
    ensures RunAsWritten([0x03, 0x20], clock) == SourceRun([Record("0", Sample(18, 42))], false)
  {
    CleanEndNeverStops([0x03, 0x20], clock);
    RunExample(clock);
  }
}
