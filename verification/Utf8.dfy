/** Rust's `str`: byte sequences that are well-formed UTF-8, by the grammar of section 4 of RFC 3629, with the
    per-scalar lengths `char::len_utf8` and `char::len_utf16`. */
module Utf8 {
  import opened Wrappers

  // A Unicode scalar value (Rust's `char`).
  type scalar = c: int | 0 <= c < 0x11_0000 && !(0xD800 <= c < 0xE000)

  predicate IsTail(b: byte) { 0x80 <= b <= 0xBF }

  // UTF8-3 and UTF8-4 of the grammar.
  predicate IsThree(a: byte, b: byte, c: byte) {
    IsTail(c) && (
      || (a == 0xE0 && 0xA0 <= b <= 0xBF)
      || (0xE1 <= a <= 0xEC && IsTail(b))
      || (a == 0xED && 0x80 <= b <= 0x9F)
      || (0xEE <= a <= 0xEF && IsTail(b)))
  }

  predicate IsFour(a: byte, b: byte, c: byte, d: byte) {
    IsTail(c) && IsTail(d) && (
      || (a == 0xF0 && 0x90 <= b <= 0xBF)
      || (0xF1 <= a <= 0xF3 && IsTail(b))
      || (a == 0xF4 && 0x80 <= b <= 0x8F))
  }

  /** The number of bytes of the UTF8-char that `s` starts with; 0 when `s` starts with none. */
  function Width(s: Bytes): nat {
    if |s| >= 1 && s[0] <= 0x7F then 1
    else if |s| >= 2 && 0xC2 <= s[0] <= 0xDF && IsTail(s[1]) then 2
    else if |s| >= 3 && IsThree(s[0], s[1], s[2]) then 3
    else if |s| >= 4 && IsFour(s[0], s[1], s[2], s[3]) then 4
    else 0
  }

  /** The first scalar of `s`: what `s.chars().next()` yields. */
  function FirstScalar(s: Bytes): (c: scalar)
    requires Width(s) > 0
    ensures LenUtf8(c) == Width(s) <= |s|
  {
    match Width(s)
    case 1 => s[0]
    case 2 => Bits(s[0], 0xC0) * 0x40 + Bits(s[1], 0x80)
    case 3 => Bits(s[0], 0xE0) * 0x1000 + Bits(s[1], 0x80) * 0x40 + Bits(s[2], 0x80)
    case _ => Bits(s[0], 0xF0) * 0x4_0000 + Bits(s[1], 0x80) * 0x1000 + Bits(s[2], 0x80) * 0x40 + Bits(s[3], 0x80)
  }

  /** The payload of a byte whose marker bits are `marker`. */
  function Bits(b: int, marker: int): int { b - marker }

  /** `char::len_utf8`. */
  function LenUtf8(c: scalar): nat {
    if c < 0x80 then 1 else if c < 0x800 then 2 else if c < 0x1_0000 then 3 else 4
  }

  /** `char::len_utf16`. */
  function LenUtf16(c: scalar): nat {
    if c < 0x1_0000 then 1 else 2
  }

  /** The UTF-16 code units of a scalar: itself, or a surrogate pair. */
  function Utf16(c: scalar): (units: seq<nat>)
    ensures |units| == LenUtf16(c)
  {
    if c < 0x1_0000 then [c] else [0xD800 + (c - 0x1_0000) / 0x400, 0xDC00 + (c - 0x1_0000) % 0x400]
  }

  function Utf16Units(cs: seq<scalar>): seq<nat> {
    if cs == [] then [] else Utf16(cs[0]) + Utf16Units(cs[1..])
  }

  function EncodeScalar(c: scalar): Bytes {
    var c1: int := c / 0x40;
    var c2: int := c1 / 0x40;
    var c3: int := c2 / 0x40;
    if c < 0x80 then [c]
    else if c < 0x800 then [0xC0 + c1, 0x80 + c % 0x40]
    else if c < 0x1_0000 then [0xE0 + c2, 0x80 + c1 % 0x40, 0x80 + c % 0x40]
    else [0xF0 + c3, 0x80 + c2 % 0x40, 0x80 + c1 % 0x40, 0x80 + c % 0x40]
  }

  /** These are the code units of UTF-16 (section 2 of RFC 2781): one unit is a scalar below 0x1_0000, which no
      surrogate is, and a pair is a high and a low surrogate that carry ten bits each. */
  lemma Utf16IsUtf16(c: scalar)
    ensures forall i | 0 <= i < |Utf16(c)| :: Utf16(c)[i] < 0x1_0000
    ensures |Utf16(c)| == 1 || |Utf16(c)| == 2
    ensures |Utf16(c)| == 1 ==> Utf16(c) == [c] && !(0xD800 <= c < 0xE000)
    ensures |Utf16(c)| == 2 ==>
              var (h, l) := (Utf16(c)[0], Utf16(c)[1]);
              0xD800 <= h < 0xDC00 <= l < 0xE000 && c == 0x1_0000 + (h - 0xD800) * 0x400 + (l - 0xDC00)
  {
  }

  /** The units of a text are those of its scalars, one after the other. */
  lemma {:induction false} Utf16UnitsConcat(a: seq<scalar>, b: seq<scalar>)
    ensures Utf16Units(a + b) == Utf16Units(a) + Utf16Units(b)
    ensures forall c: scalar :: Utf16Units([c]) == Utf16(c)
  {
    hide Utf16;
    if a == [] {
      assert a + b == b;
    } else {
      assert (a + b)[1..] == a[1..] + b;
      Utf16UnitsConcat(a[1..], b);
    }
  }

  /** These are the bytes of UTF-8 (section 3 of RFC 3629): a leading byte that tells how many follow, and six bits in
      each that does, in the least number of bytes. */
  lemma EncodedValue(c: scalar)
    ensures var e := EncodeScalar(c);
            && |e| == LenUtf8(c)
            && (forall i | 0 < i < |e| :: 0x80 <= e[i] < 0xC0)
            && match |e|
               case 1 => c < 0x80 && e[0] == c
               case 2 => 0x80 <= c < 0x800 && 0xC0 <= e[0] < 0xE0
                         && c == (e[0] as int - 0xC0) * 0x40 + (e[1] as int - 0x80)
               case 3 => 0x800 <= c < 0x1_0000 && 0xE0 <= e[0] < 0xF0
                         && c == (e[0] as int - 0xE0) * 0x1000 + (e[1] as int - 0x80) * 0x40 + (e[2] as int - 0x80)
               case 4 => 0x1_0000 <= c && 0xF0 <= e[0] < 0xF8
                         && c == (e[0] as int - 0xF0) * 0x4_0000 + (e[1] as int - 0x80) * 0x1000
                                 + (e[2] as int - 0x80) * 0x40 + (e[3] as int - 0x80)
               case _ => false
  {
  }

  lemma DivMod(x: int, d: int)
    requires 0 <= d < 0x40
    ensures (x * 0x40 + d) / 0x40 == x && (x * 0x40 + d) % 0x40 == d
  {
  }

  lemma EncodesTwo(a: byte, b: byte)
    requires 0xC2 <= a <= 0xDF && IsTail(b)
    ensures EncodeScalar(Bits(a, 0xC0) * 0x40 + Bits(b, 0x80)) == [a, b]
  {
    DivMod(Bits(a, 0xC0), Bits(b, 0x80));
  }

  lemma EncodesThree(a: byte, b: byte, c: byte)
    requires IsThree(a, b, c)
    ensures EncodeScalar(Bits(a, 0xE0) * 0x1000 + Bits(b, 0x80) * 0x40 + Bits(c, 0x80)) == [a, b, c]
  {
    var x := Bits(a, 0xE0) * 0x40 + Bits(b, 0x80);
    DivMod(x, Bits(c, 0x80));
    DivMod(Bits(a, 0xE0), Bits(b, 0x80));
  }

  lemma EncodesFour(a: byte, b: byte, c: byte, d: byte)
    requires IsFour(a, b, c, d)
    ensures EncodeScalar(Bits(a, 0xF0) * 0x4_0000 + Bits(b, 0x80) * 0x1000 + Bits(c, 0x80) * 0x40 + Bits(d, 0x80))
            == [a, b, c, d]
  {
    var y := Bits(a, 0xF0) * 0x40 + Bits(b, 0x80);
    var x := y * 0x40 + Bits(c, 0x80);
    DivMod(x, Bits(d, 0x80));
    DivMod(y, Bits(c, 0x80));
    DivMod(Bits(a, 0xF0), Bits(b, 0x80));
  }

  lemma FirstScalarEncodes(s: Bytes)
    requires Width(s) > 0
    ensures EncodeScalar(FirstScalar(s)) == s[..Width(s)]
  {
    var w := Width(s);
    if w == 1 {
      assert s[..1] == [s[0]];
    } else {
      hide EncodeScalar;
      if w == 2 {
        EncodesTwo(s[0], s[1]);
        assert s[..2] == [s[0], s[1]];
      } else if w == 3 {
        EncodesThree(s[0], s[1], s[2]);
        assert s[..3] == [s[0], s[1], s[2]];
      } else {
        EncodesFour(s[0], s[1], s[2], s[3]);
        assert s[..4] == [s[0], s[1], s[2], s[3]];
      }
    }
  }

  lemma EncodedScalarDecodes(c: scalar, rest: Bytes)
    ensures Width(EncodeScalar(c) + rest) == LenUtf8(c) == |EncodeScalar(c)|
    ensures FirstScalar(EncodeScalar(c) + rest) == c
  {
  }

  predicate Valid(s: Bytes) {
    s == [] || (Width(s) > 0 && Valid(s[Width(s)..]))
  }

  /** The scalars of `s`, up to the first byte that starts none. */
  function Scalars(s: Bytes): seq<scalar> {
    if Width(s) == 0 then [] else [FirstScalar(s)] + Scalars(s[Width(s)..])
  }

  function Encode(cs: seq<scalar>): Bytes {
    if cs == [] then [] else EncodeScalar(cs[0]) + Encode(cs[1..])
  }

  /** Well-formed text and scalar sequences are in bijection. */
  lemma {:induction false} EncodeScalars(s: Bytes)
    ensures Valid(s) <==> Encode(Scalars(s)) == s
  {
    if Width(s) > 0 {
      var rest := s[Width(s)..];
      FirstScalarEncodes(s);
      EncodeScalars(rest);
      assert Scalars(s)[1..] == Scalars(rest);
      assert s == s[..Width(s)] + rest;
    }
  }

  lemma {:induction false} ScalarsEncode(cs: seq<scalar>)
    ensures Valid(Encode(cs)) && Scalars(Encode(cs)) == cs
  {
    if cs != [] {
      ScalarsEncode(cs[1..]);
      EncodedScalarDecodes(cs[0], Encode(cs[1..]));
      assert Encode(cs)[LenUtf8(cs[0])..] == Encode(cs[1..]);
    }
  }

  /** What follows the first scalar does not influence how it reads. */
  lemma WidthOfPrefix(s: Bytes, n: nat)
    requires Width(s) > 0 && Width(s) <= n <= |s|
    ensures Width(s[..n]) == Width(s)
    ensures FirstScalar(s[..n]) == FirstScalar(s)
  {
  }

  lemma DropFront(a: Bytes, b: Bytes, w: nat)
    requires w <= |a|
    ensures (a + b)[w..] == a[w..] + b
  {
  }

  lemma {:induction false} ValidConcat(a: Bytes, b: Bytes)
    requires Valid(a) && Valid(b)
    ensures Valid(a + b)
  {
    if a == [] {
      assert a + b == b;
    } else {
      var w := Width(a);
      assert (a + b)[..|a|] == a;
      assert Width(a + b) == w;
      DropFront(a, b, w);
      ValidConcat(a[w..], b);
    }
  }

  /** `str::is_char_boundary`. */
  predicate IsCharBoundary(s: Bytes, o: nat) {
    o == 0 || o == |s| || (o < |s| && !IsTail(s[o]))
  }

  /** Slicing well-formed text at `o` is allowed exactly where both halves are well-formed. */
  lemma {:induction false} CharBoundarySplits(s: Bytes, o: nat)
    requires Valid(s) && o <= |s|
    ensures IsCharBoundary(s, o) <==> Valid(s[..o]) && Valid(s[o..])
    decreases |s|
  {
    if o == 0 {
      assert s[..0] == [] && s[0..] == s;
    } else if o < Width(s) {
      InsideScalar(s, o);
    } else {
      hide Width, FirstScalar;
      var w := Width(s);
      CharBoundarySplits(s[w..], o - w);
      WidthOfPrefix(s, o);
      CutTwice(s, w, o);
    }
  }

  lemma InsideScalar(s: Bytes, o: nat)
    requires 0 < o < Width(s) <= |s|
    ensures IsTail(s[o]) && !Valid(s[o..])
  {
    assert s[o..][0] == s[o];
  }

  lemma CutTwice(s: Bytes, w: nat, o: nat)
    requires w <= o <= |s|
    ensures s[..o][w..] == s[w..][..o - w] && s[w..][o - w..] == s[o..]
    ensures o < |s| ==> s[w..][o - w] == s[o]
  {
  }
}
