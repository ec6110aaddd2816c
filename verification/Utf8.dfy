/** UTF-8 as Go reads and writes it: an ill-formed byte decodes to U+FFFD with width one. */
module Utf8 {
  import opened Bytes

  type Rune = r: int | 0 <= r <= 0x10FFFF

  const RUNE_ERROR: Rune := 0xFFFD

  predicate Surrogate(r: Rune) { 0xD800 <= r <= 0xDFFF }

  /** The bytes of `string(r)`: a surrogate is written as U+FFFD. */
  function Encode(r: Rune): (b: seq<Byte>)
    ensures 1 <= |b| <= 4
  {
    if r < 0x80 then [r as Byte]
    else if r < 0x800 then [(0xC0 + r / 64) as Byte, (0x80 + r % 64) as Byte]
    else if Surrogate(r) then [0xEF, 0xBF, 0xBD]
    else if r < 0x10000 then
      [(0xE0 + r / 4096) as Byte, (0x80 + r / 64 % 64) as Byte, (0x80 + r % 64) as Byte]
    else
      [(0xF0 + r / 262144) as Byte, (0x80 + r / 4096 % 64) as Byte,
       (0x80 + r / 64 % 64) as Byte, (0x80 + r % 64) as Byte]
  }

  function EncodeAll(rs: seq<Rune>): seq<Byte> {
    if rs == [] then [] else Encode(rs[0]) + EncodeAll(rs[1..])
  }

  predicate Continuation(b: Byte) { 0x80 <= b < 0xC0 }

  /** Go's `DecodeRune` on `s[i..]`: the rune and its width. */
  function Decode(s: seq<Byte>, i: nat): (d: (Rune, nat))
    requires i < |s|
    ensures 1 <= d.1 <= |s| - i
    ensures forall k :: i < k < i + d.1 ==> Continuation(s[k])
  {
    var b0 := s[i] as int;
    if b0 < 0x80 then (b0, 1)
    else if 0xC2 <= b0 <= 0xDF && i + 1 < |s| && Continuation(s[i + 1]) then
      ((b0 - 0xC0) * 64 + (s[i + 1] as int - 0x80), 2)
    else if 0xE0 <= b0 <= 0xEF && i + 2 < |s| && Continuation(s[i + 1]) && Continuation(s[i + 2])
      && (b0 == 0xE0 ==> s[i + 1] >= 0xA0) && (b0 == 0xED ==> s[i + 1] < 0xA0) then
      ((b0 - 0xE0) * 4096 + (s[i + 1] as int - 0x80) * 64 + (s[i + 2] as int - 0x80), 3)
    else if 0xF0 <= b0 <= 0xF4 && i + 3 < |s| && Continuation(s[i + 1]) && Continuation(s[i + 2])
      && Continuation(s[i + 3])
      && (b0 == 0xF0 ==> s[i + 1] >= 0x90) && (b0 == 0xF4 ==> s[i + 1] < 0x90) then
      ((b0 - 0xF0) * 262144 + (s[i + 1] as int - 0x80) * 4096
       + (s[i + 2] as int - 0x80) * 64 + (s[i + 3] as int - 0x80), 4)
    else (RUNE_ERROR, 1)
  }

  /** Base-64 digits read back. */
  lemma DigitsOfThree(x: nat, y: nat, z: nat)
    requires y < 64 && z < 64
    ensures var r := x * 4096 + y * 64 + z; r % 64 == z && r / 64 % 64 == y && r / 4096 == x
  {
    var r := x * 4096 + y * 64 + z;
    assert r / 64 == x * 64 + y;
  }

  lemma DigitsOfFour(w: nat, x: nat, y: nat, z: nat)
    requires x < 64 && y < 64 && z < 64
    ensures var r := w * 262144 + x * 4096 + y * 64 + z;
      r % 64 == z && r / 64 % 64 == y && r / 4096 % 64 == x && r / 262144 == w
  {
    DigitsOfThree(w * 64 + x, y, z);
  }

  /** What decodes to anything but U+FFFD is exactly that rune's encoding. */
  lemma DecodedIsEncoded(s: seq<Byte>, i: nat)
    requires i < |s| && Decode(s, i).0 != RUNE_ERROR
    ensures !Surrogate(Decode(s, i).0)
    ensures s[i..i + Decode(s, i).1] == Encode(Decode(s, i).0)
  {
    var w := Decode(s, i).1;
    var b0 := s[i] as int;
    if w == 3 {
      DigitsOfThree(b0 - 0xE0, s[i + 1] as int - 0x80, s[i + 2] as int - 0x80);
    } else if w == 4 {
      DigitsOfFour(b0 - 0xF0, s[i + 1] as int - 0x80, s[i + 2] as int - 0x80, s[i + 3] as int - 0x80);
    }
  }

  /** Decoding undoes encoding, wherever the encoding stands; a surrogate comes back as U+FFFD. */
  lemma EncodedDecodes(s: seq<Byte>, i: nat, r: Rune)
    requires i + |Encode(r)| <= |s| && s[i..i + |Encode(r)|] == Encode(r)
    ensures Decode(s, i) == (if Surrogate(r) then RUNE_ERROR else r, |Encode(r)|)
  {
    var b := Encode(r);
    assert forall k :: i <= k < i + |b| ==> s[k] == s[i..i + |b|][k - i];
    assert s[i] == b[0];
    if r >= 0x10000 {
      assert s[i + 1] == b[1] && s[i + 2] == b[2] && s[i + 3] == b[3];
      FourByteDigits(r);
    } else if r >= 0x800 {
      assert s[i + 1] == b[1] && s[i + 2] == b[2];
      ThreeByteDigits(r);
    } else if r >= 0x80 {
      assert s[i + 1] == b[1];
    }
  }

  /** The base-64 digits of a three-byte rune, and the bounds the decoder checks. */
  lemma ThreeByteDigits(r: int)
    requires 0x800 <= r < 0x10000
    ensures r == r / 4096 * 4096 + r / 64 % 64 * 64 + r % 64
    ensures 0 <= r / 4096 < 16 && 0 <= r / 64 % 64 < 64
    ensures r / 4096 == 0 ==> r / 64 % 64 >= 0x20
    ensures r / 4096 == 13 && r / 64 % 64 >= 0x20 ==> 0xD800 <= r <= 0xDFFF
  {
  }

  lemma FourByteDigits(r: int)
    requires 0x10000 <= r <= 0x10FFFF
    ensures r == r / 262144 * 262144 + r / 4096 % 64 * 4096 + r / 64 % 64 * 64 + r % 64
    ensures 0 <= r / 262144 <= 4 && 0 <= r / 4096 % 64 < 64 && 0 <= r / 64 % 64 < 64
    ensures r / 262144 == 0 ==> r / 4096 % 64 >= 0x10
    ensures r / 262144 == 4 ==> r / 4096 % 64 < 0x10
  {
  }

  /** Offsets where a left-to-right decoding from the start of the text stops. */
  ghost predicate Boundary(s: seq<Byte>, i: nat) {
    i == 0 || exists k: nat :: k < i && k < |s| && Boundary(s, k) && k + Decode(s, k).1 == i
  }

  /** A byte that is not a continuation byte always starts a decoding step. */
  lemma {:induction false} LeadingByteIsBoundary(s: seq<Byte>, b: nat, i: nat)
    requires b <= i < |s| && Boundary(s, b) && !Continuation(s[i])
    ensures Boundary(s, i)
    decreases i - b
  {
    if b < i {
      var next := b + Decode(s, b).1;
      assert Boundary(s, next);
      LeadingByteIsBoundary(s, next, i);
    }
  }
}
