/**
 The frame decoder: the two assignments that turn `df[0]`, `df[1]` into a
 seismic reading in `main` of decode.c. The amplitude takes the upper seven
 bits of the marker byte and the upper nibble of the data byte; the gain is a
 3-bit field of the data byte, scaled to one of eight calibration steps.
 */
module Decoder {

  import opened Framing

  datatype Sample = Sample(data: nat, gain: nat)

  /** The eight calibration steps: 42 + 6 * g for a 3-bit field g. */
  const GainSteps: set<nat> := {42, 48, 54, 60, 66, 72, 78, 84}

  /** The largest amplitude an 11-bit reading can hold. */
  const MaxData: nat := 2047

  predicate ValidSample(s: Sample) {
    s.data <= MaxData && s.gain in GainSteps
  }

  /** `data` and `gain` of one frame. */
  function Decode(f: Frame): (s: Sample)
    ensures s.data == (f.marker as nat / 2) * 16 + f.data as nat / 16
    ensures s.gain == 42 + 6 * (f.data as nat / 2 % 8)
    ensures ValidSample(s)
    ensures s.gain != 90
  {
    FieldRanges(f.marker as nat, f.data as nat);
    Sample(Amplitude(f.marker, f.data), 42 + 6 * GainField(f.data))
  }

  /** `((df[0] & 0xfe) << 3) | ((df[1] & 0xf0) >> 4)`, with both bytes
      promoted to C `int` (32 bits) first. */
  function Amplitude(m: byte, d: byte): (a: nat)
    ensures a == (m as nat / 2) * 16 + d as nat / 16
  {
    AmplitudeBits(m, d);
    ((((m as bv32) & 0xFE) << 3) | (((d as bv32) & 0xF0) >> 4)) as nat
  }

  /** `(df[1] & 0x0e) >> 1`: the 3-bit gain field of the data byte. */
  function GainField(d: byte): (g: nat)
    ensures g == d as nat / 2 % 8
  {
    GainBits(d);
    (((d as bv32) & 0x0E) >> 1) as nat
  }

  /** The amplitude expression of Decode, read as a number. */
  lemma AmplitudeBits(m: byte, d: byte)
    ensures ((((m as bv32) & 0xFE) << 3) | (((d as bv32) & 0xF0) >> 4)) as nat
         == (m as nat / 2) * 16 + d as nat / 16
  {
    var hi := m >> 1;
    var lo := d >> 4;
    PromotedFields(m, d);
    NibbleJoin(hi, lo);
    HalfValue(m);
    NibbleValue(d);
    var joined := (hi as bv32 << 4) | lo as bv32;
    assert joined as nat == hi as nat * 16 + lo as nat;
  }

  /** The two masked and shifted parts of the amplitude, in 32 bits, are the
      upper seven bits of the marker byte moved up a nibble and the upper
      nibble of the data byte. */
  lemma PromotedFields(m: byte, d: byte)
    ensures (((m as bv32) & 0xFE) << 3) | (((d as bv32) & 0xF0) >> 4)
         == ((m >> 1) as bv32 << 4) | ((d >> 4) as bv32)
    ensures m >> 1 < 128 && d >> 4 < 16
  {
  }

  lemma NibbleJoin(x: byte, b: byte)
    requires x < 128 && b < 16
    ensures ((x as bv32 << 4) | b as bv32) as nat == x as nat * 16 + b as nat
  {
  }

  /** Right shifts of a byte are divisions. */
  lemma HalfValue(x: byte)
    ensures (x >> 1) as nat == x as nat / 2
  {
  }

  lemma NibbleValue(x: byte)
    ensures (x >> 4) as nat == x as nat / 16
  {
  }

  /** The ranges of the two fields: eleven bits of amplitude, and one of the
      eight calibration steps, which never include 90. */
  lemma FieldRanges(m: nat, d: nat)
    requires m < 256 && d < 256
    ensures (m / 2) * 16 + d / 16 <= MaxData
    ensures 42 + 6 * (d / 2 % 8) in GainSteps
    ensures 42 + 6 * (d / 2 % 8) != 90
  {
    var g := d / 2 % 8;
    assert g in {0, 1, 2, 3, 4, 5, 6, 7};
  }

  /** The gain field of Decode, read as a number. */
  lemma GainBits(d: byte)
    ensures (((d as bv32) & 0x0E) >> 1) as nat == d as nat / 2 % 8
  {
    assert (d as bv32 & 0x0E) >> 1 == ((d >> 1) & 7) as bv32;
    assert ((d >> 1) & 7) as bv32 as nat == ((d >> 1) & 7) as nat;
    assert ((d >> 1) & 7) as nat == (d >> 1) as nat % 8;
    assert (d >> 1) as nat == d as nat / 2;
  }

  /** The frame the digitiser sends for a reading: the inverse of Decode. */
  function Encode(s: Sample): (f: Frame)
    requires ValidSample(s)
    ensures f.Valid()
  {
    var (mm, dd) := FrameNumbers(s);
    var marker := ByteOf(mm);
    var data := ByteOf(dd);
    MarkerIsOdd(marker);
    MarkerIsOdd(data);
    Frame(marker, data)
  }

  /** The two bytes of Encode as numbers: the marker byte carries the upper
      seven bits of the amplitude and the marker bit, the data byte the lower
      nibble and the gain field. */
  function FrameNumbers(s: Sample): (r: (nat, nat))
    requires ValidSample(s)
    ensures r.0 < 256 && r.0 % 2 == 1
    ensures r.1 < 256 && r.1 % 2 == 0
  {
    var g := (s.gain - 42) / 6;
    assert 0 <= g < 8;
    (s.data / 16 * 2 + 1, s.data % 16 * 16 + g * 2)
  }

  /** Every reading is decoded back from the frame that carries it. */
  lemma DecodeEncode(s: Sample)
    requires ValidSample(s)
    ensures Decode(Encode(s)) == s
  {
    var a := s.data / 16;
    var b := s.data % 16;
    var g := (s.gain - 42) / 6;
    assert 0 <= g < 8 && s.gain == 42 + 6 * g;
    var f := Encode(s);
    assert f.marker as nat == a * 2 + 1;
    assert f.data as nat == b * 16 + g * 2;
    DataByteFields(f.data as nat, b, g);
  }

  lemma DataByteFields(x: nat, b: nat, g: nat)
    requires b < 16 && g < 8 && x == b * 16 + g * 2
    ensures x / 16 == b && x / 2 % 8 == g
  {
    assert x / 2 == b * 8 + g;
  }

  /** A valid frame is determined by its reading: nothing is lost in decoding. */
  lemma EncodeDecode(f: Frame)
    requires f.Valid()
    ensures Encode(Decode(f)) == f
  {
    MarkerIsOdd(f.marker);
    MarkerIsOdd(f.data);
    var s := Decode(f);
    FrameFields(f.marker as nat, f.data as nat, s.data, s.gain);
    var e := Encode(s);
    SameValue(e.marker, f.marker);
    SameValue(e.data, f.data);
  }

  lemma FrameFields(mm: nat, dd: nat, data: nat, gain: nat)
    requires mm < 256 && mm % 2 == 1 && dd < 256 && dd % 2 == 0
    requires data == (mm / 2) * 16 + dd / 16
    requires gain == 42 + 6 * (dd / 2 % 8)
    ensures data / 16 * 2 + 1 == mm
    ensures data % 16 * 16 + (gain - 42) / 6 * 2 == dd
  {
    assert data / 16 == mm / 2 && data % 16 == dd / 16;
    assert (gain - 42) / 6 == dd / 2 % 8;
  }

  /** Distinct valid frames decode to distinct readings. */
  lemma DecodeInjective(f: Frame, g: Frame)
    requires f.Valid() && g.Valid()
    requires Decode(f) == Decode(g)
    ensures f == g
  {
    EncodeDecode(f);
    EncodeDecode(g);
  }

  /** The frame 0x03, 0x20 gives amplitude 18 at gain 42. */
  lemma DecodeExample()
    ensures Decode(Frame(0x03, 0x20)) == Sample(18, 42)
  {
  }
}
