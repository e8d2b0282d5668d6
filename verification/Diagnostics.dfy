/**
 `bitify` of decode.c: the eight bits of a byte as a string of '0' and '1',
 most significant bit first. The raw-frame diagnostic on the error stream uses
 it; that diagnostic never changes the primary records.
 */
module Diagnostics {

  import opened Framing

  /** Bit `i` of `v`, read as the source reads it: `v & (1 << i)`. */
  predicate Bit(v: byte, i: nat)
    requires i < 8
  {
    v & (1 << i) != 0
  }

  function BitChar(v: byte, i: nat): char
    requires i < 8
  {
    if Bit(v, i) then '1' else '0'
  }

  /** Reads a string of '0' and '1' as a binary number, most significant bit
      first; only the last eight characters survive in a byte. */
  function ParseBits(r: string): byte
    decreases |r|
  {
    if |r| == 0 then 0
    else (ParseBits(r[..|r| - 1]) << 1) | (if r[|r| - 1] == '1' then 1 else 0)
  }

  /** The top `n` bits of `v` as characters, most significant first. */
  function TopBits(v: byte, n: nat): (r: string)
    requires n <= 8
    ensures |r| == n
  {
    if n == 0 then "" else TopBits(v, n - 1) + [BitChar(v, 8 - n)]
  }

  /** The loop of `bitify`: appends one character per bit, from bit 7 down to
      bit 0. */
  method Bitify(v: byte) returns (r: string)
    ensures |r| == 8
    ensures forall i :: 0 <= i < 8 ==> r[i] in {'0', '1'}
    ensures forall i :: 0 <= i < 8 ==> (r[i] == '1' <==> Bit(v, 7 - i))
    ensures ParseBits(r) == v
  {
    r := "";
    var i := 7;
    while i >= 0
      invariant -1 <= i <= 7
      invariant r == TopBits(v, 7 - i)
    {
      r := r + [BitChar(v, i)];
      i := i - 1;
    }
    TopBitsChars(v, 8);
    TopBitsValue(v, 8);
    TopValueAll(v);
  }

  /** Character `k` of the top `n` bits is the character of bit `7 - k`. */
  lemma {:induction false} TopBitsChars(v: byte, n: nat)
    requires n <= 8
    ensures forall k :: 0 <= k < n ==> TopBits(v, n)[k] == BitChar(v, 7 - k)
  {
    if n > 0 {
      TopBitsChars(v, n - 1);
      assert TopBits(v, n) == TopBits(v, n - 1) + [BitChar(v, 8 - n)];
    }
  }

  /** The top `n` bits of `v` as a number, built bit by bit. */
  function TopValue(v: byte, n: nat): byte
    requires n <= 8
  {
    if n == 0 then 0 else (TopValue(v, n - 1) << 1) | (if Bit(v, 8 - n) then 1 else 0)
  }

  /** All eight bits rebuild the byte. */
  lemma TopValueAll(v: byte)
    ensures TopValue(v, 8) == v
  {
    assert TopValue(v, 1) == if Bit(v, 7) then 1 else 0;
    assert TopValue(v, 2) == v >> 6;
    assert TopValue(v, 3) == v >> 5;
    assert TopValue(v, 4) == v >> 4;
    assert TopValue(v, 5) == v >> 3;
    assert TopValue(v, 6) == v >> 2;
    assert TopValue(v, 7) == v >> 1;
  }

  /** Parsing the top `n` bit characters rebuilds the top `n` bits. */
  lemma {:induction false} TopBitsValue(v: byte, n: nat)
    requires n <= 8
    ensures ParseBits(TopBits(v, n)) == TopValue(v, n)
  {
    if n > 0 {
      var r := TopBits(v, n - 1);
      TopBitsValue(v, n - 1);
      ParseSnoc(r, BitChar(v, 8 - n));
    }
  }

  /** Parsing one more character shifts it in at the bottom. */
  lemma ParseSnoc(r: string, c: char)
    ensures ParseBits(r + [c]) == (ParseBits(r) << 1) | (if c == '1' then 1 else 0)
  {
    assert (r + [c])[..|r|] == r;
  }

  /** The other direction of the round trip: a string of eight '0'/'1'
      characters is the bit string of the byte it parses to. */
  lemma BitsOfParse(r: string)
    requires |r| == 8
    requires forall i :: 0 <= i < 8 ==> r[i] in {'0', '1'}
    ensures forall i :: 0 <= i < 8 ==> r[i] == BitChar(ParseBits(r), 7 - i)
  {
    BitsOfParsePrefix(r, 8);
    assert r[..8] == r;
  }

  lemma {:induction false} BitsOfParsePrefix(r: string, n: nat)
    requires n <= 8 && n <= |r|
    requires forall i :: 0 <= i < n ==> r[i] in {'0', '1'}
    ensures forall i :: 0 <= i < n ==> r[i] == BitChar(ParseBits(r[..n]), n - 1 - i)
    decreases n
  {
    if n > 0 {
      var p := r[..n];
      assert p[..n - 1] == r[..n - 1];
      BitsOfParsePrefix(r, n - 1);
      var x := ParseBits(r[..n - 1]);
      var d: byte := if r[n - 1] == '1' then 1 else 0;
      assert ParseBits(p) == (x << 1) | d;
      forall i | 0 <= i < n
        ensures r[i] == BitChar(ParseBits(p), n - 1 - i)
      {
        if i == n - 1 {
          LowBit(x, d);
        } else {
          assert r[i] == BitChar(x, n - 2 - i);
          ShiftedBit(x, d, n - 2 - i);
        }
      }
    }
  }

  lemma LowBit(x: byte, d: byte)
    requires d <= 1
    ensures Bit((x << 1) | d, 0) <==> d == 1
  {
  }

  lemma ShiftedBit(x: byte, d: byte, k: nat)
    requires d <= 1 && k < 7
    ensures Bit((x << 1) | d, k + 1) <==> Bit(x, k)
  {
  }
}
