/** uv__utf8_decode1 of src/idna.c: one character of UTF-8, with a cursor that always advances. */
module Utf8 {
  import opened Common

  /** The code point, or -1 (UINT_MAX in the source) for an error, and the advanced cursor. */
  datatype Decoded = Decoded(code: int, next: nat)

  predicate IsScalar(c: int) { 0 <= c <= 0x10FFFF && !(0xD800 <= c <= 0xDFFF) }

  predicate IsContinuation(b: byte) { 0x80 <= b < 0xC0 }

  /** The top two bits of a byte, and the other six. */
  predicate Bit7(b: byte) { b >= 0x80 }

  predicate Bit6(b: byte) { b >= 0xC0 || 0x40 <= b < 0x80 }

  function Low6(b: byte): (r: nat)
    ensures r < 64
  {
    if b < 0x40 then b else if b < 0x80 then b - 0x40 else if b < 0xC0 then b - 0x80 else b - 0xC0
  }

  /** Exclusive or of three bits. */
  predicate Odd(x: bool, y: bool, z: bool) { (x != y) != z }

  /** The checks and the arithmetic that end uv__utf8_decode1_slow; line 117 looks only at the
      exclusive or of the top two bits of the three bytes. */
  function Assemble(a: nat, b: byte, c: byte, d: byte, min: nat): int {
    var code := a * 0x40000 + Low6(b) * 0x1000 + Low6(c) * 0x40 + Low6(d);
    if !Odd(Bit7(b), Bit7(c), Bit7(d)) || Odd(Bit6(b), Bit6(c), Bit6(d)) then -1
    else if code < min || !IsScalar(code) then -1
    else code
  }

  /** How many bytes follow the lead byte `a` when at most `avail` can: the fall-through cases of the switch. */
  function Trail(a: byte, avail: nat): nat {
    if a > 0xEF && avail >= 3 then 3 else if a > 0xDF && avail >= 2 then 2 else if a > 0xBF && avail >= 1 then 1 else 0
  }

  /** uv__utf8_decode1 */
  function Decode1(s: seq<byte>, p: nat, pe: nat): (r: Decoded)
    requires p < pe <= |s|
    ensures p < r.next <= pe
    ensures r.code != -1 ==> IsScalar(r.code) && (r.code < 128 <==> r.next == p + 1 && s[p] == r.code)
  {
    var a := s[p];
    if a < 128 then Decoded(a, p + 1)
    else if a > 0xF7 then Decoded(-1, p + 1)
    else
      match Trail(a, pe - p - 1)
      case 3 => Decoded(Assemble(a % 8, s[p + 1], s[p + 2], s[p + 3], 0x10000), p + 4)
      case 2 => Decoded(Assemble(0, 0x80 + a % 16, s[p + 1], s[p + 2], 0x800), p + 3)
      case 1 => Decoded(Assemble(0, 0x80, 0x80 + a % 32, s[p + 1], 0x80), p + 2)
      case _ => Decoded(-1, p + 1)
  }

  /** The bytes of a code point, section 3 of RFC 3629; WTF-8 uses the same form for surrogates. */
  function Encode(c: nat): (bs: seq<byte>)
    requires c <= 0x10FFFF
    ensures 1 <= |bs| <= 4
  {
    if c < 0x80 then [c]
    else if c < 0x800 then [0xC0 + c / 64, 0x80 + c % 64]
    else if c < 0x10000 then [0xE0 + c / 4096, 0x80 + c / 64 % 64, 0x80 + c % 64]
    else [0xF0 + c / 262144, 0x80 + c / 4096 % 64, 0x80 + c / 64 % 64, 0x80 + c % 64]
  }

  lemma {:induction false} SixBelow(q: nat, r: nat)
    requires r < 64
    ensures (q * 64 + r) / 64 == q && (q * 64 + r) % 64 == r
  {
  }

  lemma {:induction false} TwelveBelow(q: nat, r: nat)
    requires r < 4096
    ensures (q * 4096 + r) / 4096 == q
  {
  }

  lemma {:induction false} EighteenBelow(q: nat, r: nat)
    requires r < 262144
    ensures (q * 262144 + r) / 262144 == q
  {
  }

  /** Six-bit groups can be taken apart again. */
  lemma {:induction false} Groups(a: nat, b: nat, c: nat, d: nat)
    requires b < 64 && c < 64 && d < 64
    ensures var v := a * 0x40000 + b * 0x1000 + c * 0x40 + d;
      && v % 64 == d && v / 64 % 64 == c && v / 4096 % 64 == b && v / 262144 == a
      && v / 64 == a * 4096 + b * 64 + c && v / 4096 == a * 64 + b
  {
    SixBelow(a * 4096 + b * 64 + c, d);
    SixBelow(a * 64 + b, c);
    SixBelow(a, b);
    TwelveBelow(a * 64 + b, c * 64 + d);
    EighteenBelow(a, b * 4096 + c * 64 + d);
  }

  /** What the final check makes of three continuation bytes. */
  lemma {:induction false} AssembleContinued(a: nat, b: byte, c: byte, d: byte, min: nat)
    requires IsContinuation(b) && IsContinuation(c) && IsContinuation(d)
    ensures var v := a * 0x40000 + (b - 128) * 0x1000 + (c - 128) * 0x40 + (d - 128);
      Assemble(a, b, c, d, min) == if v < min || !IsScalar(v) then -1 else v
  {
  }

  lemma {:induction false} Encoded(c: nat, a: nat, b: nat, d: nat, e: nat)
    requires c <= 0x10FFFF && b < 64 && d < 64 && e < 64 && c == a * 0x40000 + b * 0x1000 + d * 0x40 + e
    ensures c >= 0x10000 ==> Encode(c) == [0xF0 + a, 0x80 + b, 0x80 + d, 0x80 + e]
    ensures 0x800 <= c < 0x10000 ==> a == 0 && Encode(c) == [0xE0 + b, 0x80 + d, 0x80 + e]
    ensures 0x80 <= c < 0x800 ==> a == 0 && b == 0 && Encode(c) == [0xC0 + d, 0x80 + e]
  {
    Groups(a, b, d, e);
  }

  function Checked(v: int, min: nat): int { if v < min || !IsScalar(v) then -1 else v }

  lemma {:induction false} Read2(s: seq<byte>, p: nat, pe: nat, d: nat, e: nat)
    requires p + 2 <= pe <= |s| && d < 32 && e < 64 && s[p] == 0xC0 + d && s[p + 1] == 0x80 + e
    ensures Decode1(s, p, pe) == Decoded(Checked(d * 64 + e, 0x80), p + 2)
  {
    AssembleContinued(0, 0x80, 0x80 + d, 0x80 + e, 0x80);
  }

  lemma {:induction false} Read3(s: seq<byte>, p: nat, pe: nat, b: nat, d: nat, e: nat)
    requires p + 3 <= pe <= |s| && b < 16 && d < 64 && e < 64 && s[p] == 0xE0 + b && s[p + 1] == 0x80 + d
        && s[p + 2] == 0x80 + e
    ensures Decode1(s, p, pe) == Decoded(Checked(b * 4096 + d * 64 + e, 0x800), p + 3)
  {
    AssembleContinued(0, 0x80 + b, 0x80 + d, 0x80 + e, 0x800);
  }

  lemma {:induction false} Read4(s: seq<byte>, p: nat, pe: nat, a: nat, b: nat, d: nat, e: nat)
    requires p + 4 <= pe <= |s| && a < 8 && b < 64 && d < 64 && e < 64
    requires s[p] == 0xF0 + a && s[p + 1] == 0x80 + b && s[p + 2] == 0x80 + d && s[p + 3] == 0x80 + e
    ensures Decode1(s, p, pe) == Decoded(Checked(a * 0x40000 + b * 4096 + d * 64 + e, 0x10000), p + 4)
  {
    AssembleContinued(a, 0x80 + b, 0x80 + d, 0x80 + e, 0x10000);
  }

  /** A well-formed character behind the cursor, taken apart. */
  lemma {:induction false} Spelled(s: seq<byte>, p: nat, c: nat)
    requires c <= 0x10FFFF && p + |Encode(c)| <= |s| && s[p..p + |Encode(c)|] == Encode(c)
    ensures forall k | 0 <= k < |Encode(c)| :: s[p + k] == Encode(c)[k]
  {
    forall k | 0 <= k < |Encode(c)| ensures s[p + k] == Encode(c)[k] { assert s[p..p + |Encode(c)|][k] == s[p + k]; }
  }

  /** Well-formed input decodes to the character it encodes, and the cursor lands just behind it. */
  lemma {:induction false} DecodesWellFormed(s: seq<byte>, p: nat, pe: nat, c: nat)
    requires p < pe <= |s| && IsScalar(c) && p + |Encode(c)| <= pe && s[p..p + |Encode(c)|] == Encode(c)
    ensures Decode1(s, p, pe) == Decoded(c, p + |Encode(c)|)
  {
    Spelled(s, p, c);
    if c < 0x80 {
      assert s[p + 0] == Encode(c)[0];
    } else {
      var a, b, d, e := SixBits(c);
      DecodesGroups(s, p, pe, c, a, b, d, e);
    }
  }

  lemma {:induction false} SixBits(c: nat) returns (a: nat, b: nat, d: nat, e: nat)
    ensures b < 64 && d < 64 && e < 64 && c == a * 0x40000 + b * 0x1000 + d * 0x40 + e
  {
    a, b, d, e := c / 64 / 64 / 64, c / 64 / 64 % 64, c / 64 % 64, c % 64;
  }

  lemma {:induction false} DecodesGroups(s: seq<byte>, p: nat, pe: nat, c: nat, a: nat, b: nat, d: nat, e: nat)
    requires 0x80 <= c && IsScalar(c) && p + |Encode(c)| <= pe <= |s|
        && forall k | 0 <= k < |Encode(c)| :: s[p + k] == Encode(c)[k]
    requires b < 64 && d < 64 && e < 64 && c == a * 0x40000 + b * 0x1000 + d * 0x40 + e
    ensures Decode1(s, p, pe) == Decoded(c, p + |Encode(c)|)
  {
    Encoded(c, a, b, d, e);
    var w := Encode(c);
    assert s[p + 0] == w[0] && s[p + 1] == w[1];
    if c < 0x800 {
      Read2(s, p, pe, d, e);
    } else if c < 0x10000 {
      assert s[p + 2] == w[2];
      Read3(s, p, pe, b, d, e);
    } else {
      assert s[p + 2] == w[2] && s[p + 3] == w[3];
      Read4(s, p, pe, a, b, d, e);
    }
  }

  /** A lead byte that announces the right number of continuation bytes. */
  predicate WellFormed(w: seq<byte>) {
    w != [] && (w[0] < 0x80 || 0xC0 <= w[0] < 0xF8) && |w| == 1 + Trail(w[0], 3)
        && forall k | 0 < k < |w| :: IsContinuation(w[k])
  }

  lemma {:induction false} EncodeWellFormed(c: nat)
    requires c <= 0x10FFFF
    ensures WellFormed(Encode(c))
  {
  }

  lemma {:induction false} ReadWellFormed(s: seq<byte>, p: nat, pe: nat)
    requires p < pe <= |s| && WellFormed(s[p..Decode1(s, p, pe).next]) && Decode1(s, p, pe).code >= 0x80
    ensures s[p..Decode1(s, p, pe).next] == Encode(Decode1(s, p, pe).code)
  {
    var w := s[p..Decode1(s, p, pe).next];
    assert w[0] == s[p] && IsContinuation(w[1]) && w[1] == s[p + 1];
    if |w| == 2 {
      Read2(s, p, pe, w[0] - 0xC0, w[1] - 0x80);
      Encoded(Decode1(s, p, pe).code, 0, 0, w[0] - 0xC0, w[1] - 0x80);
    } else if |w| == 3 {
      assert IsContinuation(w[2]) && w[2] == s[p + 2];
      Read3(s, p, pe, w[0] - 0xE0, w[1] - 0x80, w[2] - 0x80);
      Encoded(Decode1(s, p, pe).code, 0, w[0] - 0xE0, w[1] - 0x80, w[2] - 0x80);
    } else {
      assert IsContinuation(w[2]) && w[2] == s[p + 2] && IsContinuation(w[3]) && w[3] == s[p + 3];
      Read4(s, p, pe, w[0] - 0xF0, w[1] - 0x80, w[2] - 0x80, w[3] - 0x80);
      Encoded(Decode1(s, p, pe).code, w[0] - 0xF0, w[1] - 0x80, w[2] - 0x80, w[3] - 0x80);
    }
  }

  /** The bytes from p on, and how many there are, have the shape of UTF-8: a lead byte, and all the
      continuation bytes that it announces. */
  predicate Shaped(s: seq<byte>, p: nat, pe: nat)
    requires p < pe <= |s|
  {
    var n := Trail(s[p], 3);
    && (s[p] < 0x80 || 0xC0 <= s[p] < 0xF8) && p + 1 + n <= pe
    && forall j | p < j <= p + n :: IsContinuation(s[j])
  }

  /** Exactly on which inputs an accepted character is UTF-8.  The code accepts others too: see
      IllFormedAccepted. */
  lemma {:induction false} AcceptedWellFormed(s: seq<byte>, p: nat, pe: nat)
    requires p < pe <= |s| && Decode1(s, p, pe).code != -1
    ensures var r := Decode1(s, p, pe); s[p..r.next] == Encode(r.code) <==> Shaped(s, p, pe)
  {
    var r := Decode1(s, p, pe);
    var w := s[p..r.next];
    EncodeWellFormed(r.code);
    ShapedIs(s, p, pe);
    if r.code >= 0x80 && WellFormed(w) { ReadWellFormed(s, p, pe); }
  }

  lemma {:induction false} ShapedIs(s: seq<byte>, p: nat, pe: nat)
    requires p < pe <= |s| && Decode1(s, p, pe).code != -1
    ensures Shaped(s, p, pe) <==> WellFormed(s[p..Decode1(s, p, pe).next])
  {
    var w := s[p..Decode1(s, p, pe).next];
    assert w[0] == s[p];
    forall k | 0 < k < |w| ensures w[k] == s[p + k] {}
    if WellFormed(w) {
      forall j | p < j <= p + Trail(s[p], 3) ensures IsContinuation(s[j]) { assert w[j - p] == s[j]; }
    }
  }

  // ---------- What is refused ----------

  /** A byte that cannot begin a character is refused on its own, and so is a lead byte with nothing behind it. */
  lemma {:induction false} RefusesStray(s: seq<byte>, p: nat, pe: nat)
    requires p < pe <= |s| && s[p] >= 0x80
    requires s[p] < 0xC0 || s[p] >= 0xF8 || pe == p + 1
    ensures Decode1(s, p, pe) == Decoded(-1, p + 1)
  {
  }

  /** Of all the bytes a lead byte announces, a single one that is not a continuation byte makes it refuse. */
  lemma {:induction false} RefusesOneWrong(s: seq<byte>, p: nat, pe: nat, n: nat, j: nat)
    requires p + n < pe <= |s| && 0xC0 <= s[p] < 0xF8 && n == if s[p] < 0xE0 then 1 else if s[p] < 0xF0 then 2 else 3
    requires p < j <= p + n && !IsContinuation(s[j]) && forall i | p < i <= p + n && i != j :: IsContinuation(s[i])
    ensures Decode1(s, p, pe) == Decoded(-1, p + n + 1)
  {
    if n == 1 {
      OneWrong(0x80, 0x80 + s[p] % 32, s[p + 1]);
    } else if n == 2 {
      OneWrong(0x80 + s[p] % 16, s[p + 1], s[p + 2]);
    } else {
      OneWrong(s[p + 1], s[p + 2], s[p + 3]);
    }
  }

  lemma {:induction false} OneWrong(b: byte, c: byte, d: byte)
    requires !IsContinuation(b) || !IsContinuation(c) || !IsContinuation(d)
    requires (IsContinuation(b) && IsContinuation(c)) || (IsContinuation(b) && IsContinuation(d))
        || (IsContinuation(c) && IsContinuation(d))
    ensures !Odd(Bit7(b), Bit7(c), Bit7(d)) || Odd(Bit6(b), Bit6(c), Bit6(d))
  {
  }

  /** With all announced bytes in place, exactly the well-formed characters of RFC 3629 are accepted. */
  lemma {:induction false} ShapedExact(s: seq<byte>, p: nat, pe: nat)
    requires p < pe <= |s| && Shaped(s, p, pe)
    ensures Decode1(s, p, pe).code != -1 <==>
        exists c | IsScalar(c) :: p + |Encode(c)| <= pe && s[p..p + |Encode(c)|] == Encode(c)
  {
    var r := Decode1(s, p, pe);
    if r.code != -1 {
      AcceptedWellFormed(s, p, pe);
      assert IsScalar(r.code) && s[p..p + |Encode(r.code)|] == Encode(r.code);
    }
    forall c | IsScalar(c) && p + |Encode(c)| <= pe && s[p..p + |Encode(c)|] == Encode(c) ensures r.code == c {
      DecodesWellFormed(s, p, pe, c);
    }
  }

  /** A character cut off by the end of the input is read as a shorter one, from the low bits of its lead byte. */
  lemma {:induction false} ReadsCutOff(s: seq<byte>, p: nat, pe: nat)
    requires p < pe <= |s| && s[p] < 0xF8 && forall j | p < j < pe :: IsContinuation(s[j])
    ensures s[p] >= 0xE0 && pe == p + 2 ==>
        var a: int, b: int := s[p], s[p + 1]; Decode1(s, p, pe) == Decoded(Checked(a % 32 * 64 + (b - 0x80), 0x80), pe)
    ensures s[p] >= 0xF0 && pe == p + 3 ==>
        var a: int, b: int, c: int := s[p], s[p + 1], s[p + 2];
        Decode1(s, p, pe) == Decoded(Checked(a % 16 * 4096 + (b - 0x80) * 64 + (c - 0x80), 0x800), pe)
  {
    if s[p] >= 0xE0 && pe == p + 2 {
      AssembleContinued(0, 0x80, 0x80 + s[p] % 32, s[p + 1], 0x80);
    } else if s[p] >= 0xF0 && pe == p + 3 {
      AssembleContinued(0, 0x80 + s[p] % 16, s[p + 1], s[p + 2], 0x800);
    }
  }

  /** Two inputs that are not UTF-8 and are accepted: bytes whose wrong top bits cancel out, and
      a cut-off three-byte character read as a two-byte one. */
  lemma {:induction false} IllFormedAccepted()
    ensures Decode1([0xE1, 0x40, 0x40], 0, 3) == Decoded(0x1000, 3) && [0xE1, 0x40, 0x40] != Encode(0x1000)
    ensures Decode1([0xEF, 0x80], 0, 2) == Decoded(0x3C0, 2) && [0xEF, 0x80] != Encode(0x3C0)
  {
    assert [0xE1, 0x40, 0x40][1] != Encode(0x1000)[1];
    assert [0xEF, 0x80][0] != Encode(0x3C0)[0];
  }

  /** Cutting the input off behind a character does not change how the character is read. */
  lemma {:induction false} CutBehind(s: seq<byte>, p: nat, pe: nat, cut: nat)
    requires p < pe <= |s| && Decode1(s, p, pe).next <= cut <= pe
    requires Decode1(s, p, pe).code != -1
    ensures Decode1(s, p, cut) == Decode1(s, p, pe)
  {
  }

  datatype Reading = Legal(chars: seq<nat>) | Illegal

  /** The characters of s[p..pe], if all of them are legal. */
  function Chars(s: seq<byte>, p: nat, pe: nat): (t: Reading)
    requires p <= pe <= |s|
    ensures t.Legal? ==> |t.chars| <= pe - p && AllScalar(t.chars)
    decreases pe - p
  {
    if p == pe then Legal([])
    else
      var r := Decode1(s, p, pe);
      if r.code == -1 then Illegal
      else match Chars(s, r.next, pe)
        case Legal(rest) => Legal([r.code] + rest)
        case Illegal => Illegal
  }

  predicate AllScalar(cs: seq<nat>) { forall k | 0 <= k < |cs| :: IsScalar(cs[k]) }

  function EncodeAll(cs: seq<nat>): seq<byte>
    requires AllScalar(cs)
  {
    if cs == [] then [] else Encode(cs[0]) + EncodeAll(cs[1..])
  }

  lemma {:induction false} DecodesBehind(pre: seq<byte>, e: seq<byte>, post: seq<byte>, c: nat)
    requires IsScalar(c) && e == Encode(c)
    ensures var s := pre + e + post; Decode1(s, |pre|, |s|) == Decoded(c, |pre + e|)
  {
    var s := pre + e + post;
    assert s[|pre|..|pre| + |e|] == e;
    DecodesWellFormed(s, |pre|, |s|, c);
  }

  lemma {:induction false} CharsStep(s: seq<byte>, p: nat, c: nat, next: nat, rest: seq<nat>)
    requires p < |s| && Decode1(s, p, |s|) == Decoded(c, next) && Chars(s, next, |s|) == Legal(rest)
    ensures Chars(s, p, |s|) == Legal([c] + rest)
  {
  }

  /** Every well-formed text is read back exactly. */
  lemma {:induction false} CharsOfEncoding(pre: seq<byte>, cs: seq<nat>)
    requires AllScalar(cs)
    ensures var s := pre + EncodeAll(cs); Chars(s, |pre|, |s|) == Legal(cs)
    decreases |cs|
  {
    if cs != [] {
      var e, rest := Encode(cs[0]), cs[1..];
      var post := EncodeAll(rest);
      assert pre + (e + post) == pre + e + post;
      CharsOfEncoding(pre + e, rest);
      DecodesBehind(pre, e, post, cs[0]);
      CharsStep(pre + e + post, |pre|, cs[0], |pre + e|, rest);
      assert cs == [cs[0]] + rest;
    }
  }
}
