/**
 The primary output of decode.c: one line `<stamp>,<data>,<gain>` per frame,
 written by the `printf` calls of the session loop. The stamp is either the
 placeholder "0" or a timestamp string; the two numbers are printed with `%d`.
 */
module Output {

  import opened Wrappers
  import opened Decoder

  datatype Record = Record(stamp: string, sample: Sample)

  predicate IsDigit(c: char) {
    '0' as int <= c as int <= '9' as int
  }

  function DigitChar(d: nat): (c: char)
    requires d < 10
    ensures IsDigit(c) && c as int - '0' as int == d
  {
    (d + '0' as int) as char
  }

  /** The `%d` rendering of a non-negative number: decimal digits, most
      significant first, with no leading zero. */
  function Decimal(n: nat): (r: string)
    ensures |r| >= 1
    ensures forall i :: 0 <= i < |r| ==> IsDigit(r[i])
    ensures r[0] == '0' ==> n == 0 && |r| == 1
    decreases n
  {
    if n < 10 then [DigitChar(n)] else Decimal(n / 10) + [DigitChar(n % 10)]
  }

  predicate IsNumeral(t: string) {
    |t| >= 1 && forall i :: 0 <= i < |t| ==> IsDigit(t[i])
  }

  /** Reads a string of decimal digits back as a number. */
  function ParseDecimal(t: string): nat
    requires forall i :: 0 <= i < |t| ==> IsDigit(t[i])
    decreases |t|
  {
    if |t| == 0 then 0
    else
      assert IsDigit(t[|t| - 1]);
      ParseDecimal(t[..|t| - 1]) * 10 + (t[|t| - 1] as int - '0' as int)
  }

  lemma {:induction false} DecimalRoundTrip(n: nat)
    ensures ParseDecimal(Decimal(n)) == n
    decreases n
  {
    if n >= 10 {
      var r := Decimal(n);
      assert r[..|r| - 1] == Decimal(n / 10);
      DecimalRoundTrip(n / 10);
    }
  }

  /** The text of one record, exactly as the session loop prints it. */
  function Line(r: Record): string {
    r.stamp + "," + Decimal(r.sample.data) + "," + Decimal(r.sample.gain) + "\n"
  }

  /** The position of the last `c` in `s`. */
  function LastIndex(s: string, c: char): (r: Option<nat>)
    ensures r.Some? ==> r.value < |s| && s[r.value] == c
                        && forall k :: r.value < k < |s| ==> s[k] != c
    ensures r.None? ==> forall k :: 0 <= k < |s| ==> s[k] != c
    decreases |s|
  {
    if |s| == 0 then None
    else if s[|s| - 1] == c then Some(|s| - 1)
    else LastIndex(s[..|s| - 1], c)
  }

  /** Reads a line back into a record, splitting at the last two commas: the
      stamp is opaque text and may itself contain commas. */
  function ParseLine(line: string): Option<Record> {
    if |line| == 0 || line[|line| - 1] != '\n' then None
    else
      var body := line[..|line| - 1];
      match LastIndex(body, ',')
      case None => None
      case Some(c2) =>
        var head := body[..c2];
        var gainText := body[c2 + 1..];
        match LastIndex(head, ',')
        case None => None
        case Some(c1) =>
          var dataText := head[c1 + 1..];
          if IsNumeral(dataText) && IsNumeral(gainText) then
            Some(Record(head[..c1], Sample(ParseDecimal(dataText), ParseDecimal(gainText))))
          else None
  }

  /** The last `c` of `a + [c] + b` is the one after `a` when `b` has none. */
  lemma {:induction false} LastIndexAfter(a: string, c: char, b: string)
    requires forall k :: 0 <= k < |b| ==> b[k] != c
    ensures LastIndex(a + [c] + b, c) == Some(|a|)
    decreases |b|
  {
    var s := a + [c] + b;
    if |b| == 0 {
      assert s[|s| - 1] == c;
    } else {
      assert s[|s| - 1] == b[|b| - 1];
      assert s[..|s| - 1] == a + [c] + b[..|b| - 1];
      LastIndexAfter(a, c, b[..|b| - 1]);
    }
  }

  /** Splitting `a + [c] + b` at its last `c` gives back `a` and `b`. */
  lemma SplitAtLast(a: string, c: char, b: string)
    requires forall k :: 0 <= k < |b| ==> b[k] != c
    ensures LastIndex(a + [c] + b, c) == Some(|a|)
    ensures (a + [c] + b)[..|a|] == a && (a + [c] + b)[|a| + 1..] == b
  {
    LastIndexAfter(a, c, b);
    var s := a + [c] + b;
    assert s[..|a|] == a;
    assert s[|a| + 1..] == b;
  }

  /** Every printed line reads back as the record it was printed from. */
  lemma LineRoundTrip(r: Record)
    ensures ParseLine(Line(r)) == Some(r)
  {
    var dataText := Decimal(r.sample.data);
    var gainText := Decimal(r.sample.gain);
    var head := r.stamp + [','] + dataText;
    var body := head + [','] + gainText;
    assert Line(r) == body + ['\n'];
    assert Line(r)[..|Line(r)| - 1] == body;
    SplitAtLast(head, ',', gainText);
    SplitAtLast(r.stamp, ',', dataText);
    assert IsNumeral(dataText) && IsNumeral(gainText);
    DecimalRoundTrip(r.sample.data);
    DecimalRoundTrip(r.sample.gain);
    var parsed := Record(r.stamp, Sample(ParseDecimal(dataText), ParseDecimal(gainText)));
    assert parsed == r;
    assert ParseLine(Line(r)) == Some(parsed);
  }

  /** The record of the frame 0x03, 0x20 away from a timestamp is `0,18,42`. */
  lemma LineExample()
    ensures Line(Record("0", Decode(Framing.Frame(0x03, 0x20)))) == "0,18,42\n"
  {
    DecodeExample();
    assert Decimal(18) == "18";
    assert Decimal(42) == "42";
  }
}
