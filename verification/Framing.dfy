/**
 The two-byte frame of the digitiser's bitstream (decode.c, `df[2]` in `main`).
 The only framing signal is the marker bit, bit 0 of a byte: it is set on the
 first byte of a frame and clear on the second.
 */
module Framing {

  type byte = bv8

  /** The marker bit test `b & 0x01` of the framing loop. */
  predicate IsMarker(b: byte) {
    b & 0x01 != 0
  }

  /** `df[0]` is the marker byte, `df[1]` the data byte. */
  datatype Frame = Frame(marker: byte, data: byte) {

    /** What the synchroniser guarantees of every frame it assembles. */
    predicate Valid() {
      IsMarker(marker) && !IsMarker(data)
    }
  }

  /** The marker bit is the parity of the byte read as a number. */
  lemma MarkerIsOdd(b: byte)
    ensures IsMarker(b) <==> b as int % 2 == 1
  {
  }

  /** The byte holding the number `k`, assembled bit by bit from the top. */
  function ByteOf(k: nat): (b: byte)
    requires k < 256
    ensures b as nat == k
    decreases k
  {
    if k == 0 then 0
    else
      var b := ByteOf(k / 2);
      var low: byte := if k % 2 == 1 then 1 else 0;
      ShiftInLow(b, low);
      (b << 1) | low
  }

  lemma ShiftInLow(x: byte, low: byte)
    requires x < 128 && low <= 1
    ensures ((x << 1) | low) as nat == 2 * x as nat + low as nat
  {
  }

  /** Bytes with the same value are the same byte. */
  lemma SameValue(x: byte, y: byte)
    requires x as nat == y as nat
    ensures x == y
  {
  }
}
