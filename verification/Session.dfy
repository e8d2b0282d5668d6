/**
 The session loop: the outer `while (!eof)` loop of `main` in decode.c. For
 every frame the synchroniser delivers it advances the frame counter, prints
 the first field (a timestamp once every hundred frames, "0" otherwise) and
 then the decoded reading.

 The clock is a parameter: `clock(k)` is the timestamp text the loop prints
 when the k-th frame (counting from 1) is the one that gets a timestamp.
 */
module Session {

  import opened Framing
  import opened Decoder
  import opened Synchronizer
  import opened Output

  /** `TSINT`: the counter value on which the next frame gets a timestamp. */
  const TimestampAt: nat := 99

  /** The test `framecount++ == TSINT` and the reset that follows it: whether
      this frame is stamped, and the counter afterwards. */
  function Tick(count: nat): (r: (bool, nat))
    ensures count <= TimestampAt ==> r.1 <= TimestampAt
  {
    if count == TimestampAt then (true, 0) else (false, count + 1)
  }

  /** The reading of each frame, in order. */
  function Readings(frames: seq<Frame>): seq<Sample> {
    seq(|frames|, i requires 0 <= i < |frames| => Decode(frames[i]))
  }

  /** The records of `readings`, with the counter at `count` and `done` frames
      already emitted; returns the records and the final counter. */
  function Emit(readings: seq<Sample>, count: nat, done: nat, clock: nat -> string)
    : (out: (seq<Record>, nat))
    ensures |out.0| == |readings|
    ensures count <= TimestampAt ==> out.1 <= TimestampAt
    decreases |readings|
  {
    if |readings| == 0 then ([], count)
    else
      var (stamped, next) := Tick(count);
      var first := Record(if stamped then clock(done + 1) else "0", readings[0]);
      var (rest, final) := Emit(readings[1..], next, done + 1, clock);
      ([first] + rest, final)
  }

  /** The timestamp-or-placeholder field the loop prints for the record at
      index `i`, with the counter started at `count`. */
  function StampField(count: nat, done: nat, i: nat, clock: nat -> string): string {
    if (count + i + 1) % 100 == 0 then clock(done + i + 1) else "0"
  }

  /** The record at index `i` is stamped exactly when the counter, started at
      `count`, has run through a multiple of 100 frames. */
  lemma {:induction false} EmitStampAt(readings: seq<Sample>, count: nat, done: nat, clock: nat -> string, i: nat)
    requires count <= TimestampAt
    requires i < |readings|
    ensures Emit(readings, count, done, clock).0[i].stamp == StampField(count, done, i, clock)
    decreases i
  {
    var out := Emit(readings, count, done, clock);
    var next := Tick(count).1;
    var tail := Emit(readings[1..], next, done + 1, clock);
    assert out.0[1..] == tail.0;
    if i == 0 {
      assert (count + 1) % 100 == 0 <==> count == TimestampAt;
    } else {
      EmitStampAt(readings[1..], next, done + 1, clock, i - 1);
      assert out.0[i] == tail.0[i - 1];
      if count == TimestampAt {
        ModWrap(next + i);
      }
      assert StampField(next, done + 1, i - 1, clock) == StampField(count, done, i, clock);
    }
  }

  lemma ModWrap(x: nat)
    ensures (x + 100) % 100 == x % 100
  {
  }

  /** The record at index `i` carries the reading at index `i`. */
  lemma {:induction false} EmitSampleAt(readings: seq<Sample>, count: nat, done: nat, clock: nat -> string, i: nat)
    requires i < |readings|
    ensures Emit(readings, count, done, clock).0[i].sample == readings[i]
    decreases i
  {
    var out := Emit(readings, count, done, clock);
    var next := Tick(count).1;
    var tail := Emit(readings[1..], next, done + 1, clock);
    assert out.0[1..] == tail.0;
    if i > 0 {
      EmitSampleAt(readings[1..], next, done + 1, clock, i - 1);
      assert out.0[i] == tail.0[i - 1];
    }
  }

  /** The final counter is the frame total modulo 100. */
  lemma {:induction false} EmitFinalCount(readings: seq<Sample>, count: nat, done: nat, clock: nat -> string)
    requires count <= TimestampAt
    ensures Emit(readings, count, done, clock).1 == (count + |readings|) % 100
    decreases |readings|
  {
    if |readings| > 0 {
      var next := Tick(count).1;
      EmitFinalCount(readings[1..], next, done + 1, clock);
      CounterShift(count, |readings| - 1);
    }
  }

  lemma CounterShift(count: nat, i: nat)
    requires count <= TimestampAt
    ensures ((count + 1) % 100 + i) % 100 == (count + i + 1) % 100
    ensures (count + 1) % 100 == 0 <==> count == TimestampAt
  {
  }

  /** The records a whole input produces. */
  function Run(s: seq<byte>, clock: nat -> string): seq<Record> {
    Emit(Readings(Frames(s)), 0, 0, clock).0
  }

  /** One record per frame: record `i` holds the decoded frame `i`, with the
      timestamp exactly on frames 100, 200, ... and "0" on every other frame. */
  lemma RunRecords(s: seq<byte>, clock: nat -> string, i: nat)
    requires i < |Frames(s)|
    ensures |Run(s, clock)| == |Frames(s)|
    ensures Run(s, clock)[i] == Record(if (i + 1) % 100 == 0 then clock(i + 1) else "0",
                                       Decode(Frames(s)[i]))
  {
    var rs := Readings(Frames(s));
    EmitStampAt(rs, 0, 0, clock, i);
    EmitSampleAt(rs, 0, 0, clock, i);
  }

  /** In the clean model, the counter stays within [0, 99] and ends as the
      frame total modulo 100. The count the program actually reports when it
      stops is `EndOfInput.AsWrittenFinalCounter`. */
  lemma FinalCounter(s: seq<byte>, clock: nat -> string)
    ensures Emit(Readings(Frames(s)), 0, 0, clock).1 == |Frames(s)| % 100
    ensures Emit(Readings(Frames(s)), 0, 0, clock).1 <= TimestampAt
  {
    EmitFinalCount(Readings(Frames(s)), 0, 0, clock);
  }

  /** Every record comes from two adjacent input bytes: a marker byte and
      the clear byte right after it. */
  lemma RecordFromInputPair(s: seq<byte>, clock: nat -> string, i: nat) returns (j: int)
    requires i < |Run(s, clock)|
    ensures IsBoundary(s, j)
    ensures Run(s, clock)[i].sample == Decode(Frame(s[j - 1], s[j]))
  {
    var fs := Frames(s);
    j := FramesAreInputPairs(s, i);
    EmitSampleAt(Readings(fs), 0, 0, clock, i);
  }

  /** An input of n bytes gives at most n / 2 records, and an empty input none. */
  lemma RunLength(s: seq<byte>, clock: nat -> string)
    ensures |Run(s, clock)| <= |s| / 2
    ensures |s| == 0 ==> Run(s, clock) == []
  {
    if |s| == 0 {
      assert Sync(s).None?;
    }
  }

  /** The input 0x03, 0x20 prints the single line `0,18,42`. */
  lemma RunExample(clock: nat -> string)
    ensures Run([0x03, 0x20], clock) == [Record("0", Sample(18, 42))]
    ensures Line(Run([0x03, 0x20], clock)[0]) == "0,18,42\n"
  {
    var s: seq<byte> := [0x03, 0x20];
    MarkerRunResyncs([0x03], 0x20, []);
    assert [0x03] + [0x20] + [] == s;
    assert Frames([]) == [];
    assert Frames(s) == [Frame(0x03, 0x20)];
    DecodeExample();
    LineExample();
  }
}
