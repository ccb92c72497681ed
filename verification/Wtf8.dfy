/** The UTF-16 and WTF-8 conversions of src/idna.c, unpaired surrogates included. */
module Wtf8 {
  import opened Common
  import opened Utf8

  type unit = u: int | 0 <= u < 0x10000

  const UV_ENOBUFS := -105

  // ---------- UTF-16 to WTF-8, on values ----------

  predicate IsHigh(u: int) { 0xD800 <= u <= 0xDBFF }

  predicate IsLow(u: int) { 0xDC00 <= u <= 0xDFFF }

  predicate PairAt(us: seq<unit>, i: nat)
    requires i < |us|
  {
    IsHigh(us[i]) && i + 1 < |us| && IsLow(us[i + 1])
  }

  function PairValue(high: int, low: int): (c: nat)
    requires IsHigh(high) && IsLow(low)
    ensures 0x10000 <= c <= 0x10FFFF && (c - 0x10000) / 1024 == high - 0xD800 && (c - 0x10000) % 1024 == low - 0xDC00
  {
    0x10000 + (high - 0xD800) * 1024 + (low - 0xDC00)
  }

  /** uv__get_surrogate_value: the code point at i; an unpaired surrogate stands for itself. */
  function PointAt(us: seq<unit>, i: nat): (c: nat)
    requires i < |us|
    ensures c <= 0x10FFFF && (c >= 0x10000 <==> PairAt(us, i))
  {
    if PairAt(us, i) then PairValue(us[i], us[i + 1]) else us[i]
  }

  function Width(us: seq<unit>, i: nat): nat
    requires i < |us|
  {
    if PairAt(us, i) then 2 else 1
  }

  predicate Bounded(cs: seq<nat>) { forall k | 0 <= k < |cs| :: cs[k] <= 0x10FFFF }

  /** The code points from unit i on. */
  function Points(us: seq<unit>, i: nat): (cs: seq<nat>)
    requires i <= |us|
    ensures Bounded(cs)
    decreases |us| - i
  {
    if i == |us| then [] else [PointAt(us, i)] + Points(us, i + Width(us, i))
  }

  /** The WTF-8 bytes from unit i on. */
  function Encoding(us: seq<unit>, i: nat): seq<byte>
    requires i <= |us|
    decreases |us| - i
  {
    if i == |us| then [] else Encode(PointAt(us, i)) + Encoding(us, i + Width(us, i))
  }

  // ---------- WTF-8 to UTF-16, on values ----------

  predicate Terminated(s: seq<byte>) { s != [] && s[|s| - 1] == 0 }

  /** uv__wtf8_decode1; `next` is behind the last byte looked at. */
  function Wtf8At(s: seq<byte>, p: nat): (r: Decoded)
    requires Terminated(s) && p < |s|
    ensures p < r.next <= |s| && (r.code == -1 || 0 <= r.code <= 0x10FFFF)
    ensures r.code != -1 && s[r.next - 1] == 0 ==> r.code == 0 && r.next == p + 1
    ensures r.code != -1 && s[r.next - 1] != 0 ==> r.next < |s|
  {
    var b1: int := s[p];
    if b1 <= 0x7F then Decoded(b1, p + 1)
    else if b1 < 0xC2 then Decoded(-1, p + 1)
    else
      var b2: int := s[p + 1];
      if !IsContinuation(b2) then Decoded(-1, p + 2)
      else if b1 <= 0xDF then Decoded((b1 - 0xC0) * 64 + (b2 - 0x80), p + 2)
      else
        var b3: int := s[p + 2];
        if !IsContinuation(b3) then Decoded(-1, p + 3)
        else if b1 <= 0xEF then Decoded((b1 - 0xE0) * 4096 + (b2 - 0x80) * 64 + (b3 - 0x80), p + 3)
        else
          var b4: int := s[p + 3];
          if !IsContinuation(b4) then Decoded(-1, p + 4)
          else if b1 > 0xF4 then Decoded(-1, p + 4)
          else
            var c := (b1 - 0xF0) * 262144 + (b2 - 0x80) * 4096 + (b3 - 0x80) * 64 + (b4 - 0x80);
            Decoded(if c <= 0x10FFFF then c else -1, p + 4)
  }

  /** The code points of a terminated text from p on, the final 0 included. */
  function PointsOf(s: seq<byte>, p: nat): (t: Reading)
    requires Terminated(s) && p < |s|
    ensures t.Legal? ==> Bounded(t.chars)
    decreases |s| - p
  {
    var r := Wtf8At(s, p);
    if r.code == -1 then Illegal
    else if s[r.next - 1] == 0 then Legal([0])
    else match PointsOf(s, r.next)
      case Legal(rest) => Legal([r.code] + rest)
      case Illegal => Illegal
  }

  /** What uv_wtf8_length_as_utf16 counts for a code point. */
  function UnitCount(cs: seq<nat>): nat {
    if cs == [] then 0 else (if cs[0] > 0xFFFF then 2 else 1) + UnitCount(cs[1..])
  }

  /** What uv_wtf8_to_utf16 writes for a code point. */
  function UnitsFor(c: nat): seq<unit>
    requires c <= 0x10FFFF
  {
    if c > 0x10000 then [0xD800 + (c - 0x10000) / 1024, 0xDC00 + (c - 0x10000) % 1024] else [c % 0x10000]
  }

  function UnitsOf(cs: seq<nat>): seq<unit>
    requires Bounded(cs)
  {
    if cs == [] then [] else UnitsFor(cs[0]) + UnitsOf(cs[1..])
  }

  /** The two code points that the assertions of uv_wtf8_to_utf16 do not let through. */
  predicate Passes(cs: seq<nat>) { forall k | 0 <= k < |cs| :: cs[k] != 0x10000 && cs[k] != 0x10FFFF }

  // ---------- The round trip ----------

  predicate NulFree(us: seq<unit>) { forall k | 0 <= k < |us| :: us[k] != 0 }

  /** Decoding one character that Encode wrote. */
  lemma {:induction false} ReadEncoded(s: seq<byte>, p: nat, c: nat)
    requires Terminated(s) && 0 < c <= 0x10FFFF && p + |Encode(c)| < |s| && s[p..p + |Encode(c)|] == Encode(c)
    ensures Wtf8At(s, p) == Decoded(c, p + |Encode(c)|) && s[p + |Encode(c)| - 1] != 0
  {
    Spelled(s, p, c);
    var e := Encode(c);
    assert s[p + 0] == e[0];
    if c >= 0x80 {
      var a, b, d, f := SixBits(c);
      Encoded(c, a, b, d, f);
      assert s[p + 1] == e[1];
      assert |e| > 2 ==> s[p + 2] == e[2];
      assert |e| > 3 ==> s[p + 3] == e[3];
    }
  }

  lemma {:induction false} ReadOne(s: seq<byte>, p: nat, c: nat, rest: seq<byte>) returns (q: nat)
    requires 0 < c <= 0x10FFFF && p <= |s| && s[p..] == Encode(c) + rest && Terminated(rest)
    ensures p < q < |s| && s[q..] == rest && Terminated(s) && PointsOf(s, p) == Cons(c, PointsOf(s, q))
  {
    var e := Encode(c);
    q := p + |e|;
    assert s[p..][..|e|] == e && s[p..q] == e && s[q..] == rest;
    assert s[|s| - 1] == s[q..][|rest| - 1];
    ReadEncoded(s, p, c);
  }

  lemma {:induction false} Regroup(a: seq<byte>, b: seq<byte>, c: seq<byte>)
    ensures a + b + c == a + (b + c)
  {
  }

  lemma {:induction false} NextEncoding(us: seq<unit>, i: nat)
    requires i < |us|
    ensures Encoding(us, i) + [0] == Encode(PointAt(us, i)) + (Encoding(us, i + Width(us, i)) + [0])
  {
    Regroup(Encode(PointAt(us, i)), Encoding(us, i + Width(us, i)), [0]);
  }

  lemma {:induction false} ReadEnd(s: seq<byte>, p: nat)
    requires p <= |s| && s[p..] == [0]
    ensures p < |s| && Terminated(s) && PointsOf(s, p) == Legal([0])
  {
    assert s[p] == s[p..][0] == 0;
  }

  function Cons(c: nat, t: Reading): Reading { match t case Legal(cs) => Legal([c] + cs) case Illegal => Illegal }

  lemma {:induction false} EncodingReads(us: seq<unit>, i: nat, s: seq<byte>, p: nat)
    requires i <= |us| && NulFree(us) && p <= |s| && s[p..] == Encoding(us, i) + [0]
    ensures p < |s| && Terminated(s) && PointsOf(s, p) == Legal(Points(us, i) + [0])
    decreases |us| - i
  {
    if i == |us| {
      ReadEnd(s, p);
    } else {
      var j := i + Width(us, i);
      NextEncoding(us, i);
      var q := ReadOne(s, p, PointAt(us, i), Encoding(us, j) + [0]);
      EncodingReads(us, j, s, q);
      Shift(PointAt(us, i), Points(us, j));
    }
  }

  lemma {:induction false} Shift(c: nat, cs: seq<nat>)
    ensures Cons(c, Legal(cs + [0])) == Legal([c] + cs + [0])
  {
    assert [c] + (cs + [0]) == [c] + cs + [0];
  }

  lemma {:induction false} PointUnits(us: seq<unit>, i: nat)
    requires i < |us|
    ensures PointAt(us, i) != 0x10000 <==> UnitsFor(PointAt(us, i)) == us[i..i + Width(us, i)]
  {
    if PairAt(us, i) {
      assert us[i..i + 2] == [us[i], us[i + 1]];
    } else {
      assert us[i..i + 1] == [us[i]];
    }
  }

  lemma {:induction false} PointsUnits(us: seq<unit>, i: nat)
    requires i <= |us| && Passes(Points(us, i))
    ensures UnitsOf(Points(us, i)) == us[i..]
    decreases |us| - i
  {
    if i < |us| {
      var rest := Points(us, i + Width(us, i));
      assert Points(us, i)[1..] == rest && Points(us, i)[0] == PointAt(us, i);
      forall k | 0 <= k < |rest| ensures rest[k] != 0x10000 && rest[k] != 0x10FFFF {
        assert Points(us, i)[k + 1] == rest[k];
      }
      PointUnits(us, i);
      PointsUnits(us, i + Width(us, i));
      assert us[i..] == us[i..i + Width(us, i)] + us[i + Width(us, i)..];
    }
  }

  lemma {:induction false} UnitsCounted(cs: seq<nat>)
    requires Bounded(cs) && Passes(cs)
    ensures |UnitsOf(cs)| == UnitCount(cs)
  {
    if cs != [] {
      assert cs[0] != 0x10000;
      forall k | 0 <= k < |cs[1..]| ensures cs[1..][k] != 0x10000 && cs[1..][k] != 0x10FFFF {
        assert cs[1..][k] == cs[k + 1];
      }
      UnitsCounted(cs[1..]);
    }
  }

  lemma {:induction false} UnitsEnd(cs: seq<nat>)
    requires Bounded(cs)
    ensures UnitsOf(cs + [0]) == UnitsOf(cs) + [0] && (Passes(cs + [0]) <==> Passes(cs))
  {
    if cs == [] {
      assert UnitsOf([0]) == UnitsFor(0) + UnitsOf([]);
      assert Passes([0]);
    } else {
      assert (cs + [0])[1..] == cs[1..] + [0];
      UnitsEnd(cs[1..]);
      assert UnitsFor(cs[0]) + (UnitsOf(cs[1..]) + [0]) == UnitsFor(cs[0]) + UnitsOf(cs[1..]) + [0];
      if Passes(cs) { forall k | 0 <= k < |cs + [0]| ensures (cs + [0])[k] != 0x10000 && (cs + [0])[k] != 0x10FFFF {} }
      if Passes(cs + [0]) {
        forall k | 0 <= k < |cs| ensures cs[k] != 0x10000 && cs[k] != 0x10FFFF { assert (cs + [0])[k] == cs[k]; }
      }
    }
  }

  /** What uv_wtf8_to_utf16 makes of a terminated text: the units, or nothing if it is not WTF-8
      or an assertion of the function fails. */
  function Converted(s: seq<byte>): Reading
    requires Terminated(s)
  {
    match PointsOf(s, 0)
    case Illegal => Illegal
    case Legal(cs) => if Passes(cs) then Legal(UnitsOf(cs)) else Illegal
  }

  /** No two neighbours are the surrogate pair for U+10000 or for U+10FFFF. */
  predicate Clean(us: seq<unit>, i: nat) {
    forall k | i <= k < |us| - 1 ::
        !(us[k] == 0xD800 && us[k + 1] == 0xDC00) && !(us[k] == 0xDBFF && us[k + 1] == 0xDFFF)
  }

  lemma {:induction false} PointPasses(us: seq<unit>, i: nat)
    requires i < |us|
    ensures PointAt(us, i) != 0x10000 && PointAt(us, i) != 0x10FFFF <==>
            i + 1 == |us| || (!(us[i] == 0xD800 && us[i + 1] == 0xDC00) && !(us[i] == 0xDBFF && us[i + 1] == 0xDFFF))
  {
  }

  lemma {:induction false} CleanStep(us: seq<unit>, i: nat)
    requires i < |us|
    ensures Clean(us, i) <==> PointAt(us, i) != 0x10000 && PointAt(us, i) != 0x10FFFF && Clean(us, i + Width(us, i))
  {
    PointPasses(us, i);
    if Clean(us, i + Width(us, i)) && PointAt(us, i) != 0x10000 && PointAt(us, i) != 0x10FFFF {
      forall k | i <= k < |us| - 1 ensures !(us[k] == 0xD800 && us[k + 1] == 0xDC00)
          && !(us[k] == 0xDBFF && us[k + 1] == 0xDFFF)
      {
        assert k == i || k == i + 1 || k >= i + 2;
      }
    }
  }

  lemma {:induction false} CleanPasses(us: seq<unit>, i: nat)
    requires i <= |us|
    ensures Passes(Points(us, i)) <==> Clean(us, i)
    decreases |us| - i
  {
    if i < |us| {
      CleanStep(us, i);
      CleanPasses(us, i + Width(us, i));
      PassesCons(PointAt(us, i), Points(us, i + Width(us, i)));
    }
  }

  lemma {:induction false} PassesCons(c: nat, cs: seq<nat>)
    ensures Passes([c] + cs) <==> c != 0x10000 && c != 0x10FFFF && Passes(cs)
  {
    var t := [c] + cs;
    if Passes(t) {
      forall k | 0 <= k < |cs| ensures cs[k] != 0x10000 && cs[k] != 0x10FFFF { assert t[k + 1] == cs[k]; }
    }
    if Passes(t) { assert t[0] == c; }
  }

  /** UTF-16 to WTF-8 and back: the identity on every NUL-free unit sequence, unpaired surrogates
      included, exactly if it holds no surrogate pair for U+10000 or U+10FFFF. */
  lemma {:induction false} RoundTrip16(us: seq<unit>)
    requires NulFree(us)
    ensures Terminated(Encoding(us, 0) + [0])
    ensures Converted(Encoding(us, 0) + [0]) == Legal(us + [0]) <==> Clean(us, 0)
  {
    var s, cs := Encoding(us, 0) + [0], Points(us, 0);
    assert s[0..] == s && us[0..] == us;
    EncodingReads(us, 0, s, 0);
    UnitsEnd(cs);
    CleanPasses(us, 0);
    if Passes(cs) { PointsUnits(us, 0); }
  }

  // ---------- Which texts are accepted ----------

  /** At p begins a three-byte or four-byte form of a code point that has a shorter one. */
  predicate Overlong(s: seq<byte>, p: nat)
    requires p < |s|
  {
    p + 1 < |s| && ((s[p] == 0xE0 && 0x80 <= s[p + 1] < 0xA0) || (s[p] == 0xF0 && 0x80 <= s[p + 1] < 0x90))
  }

  /** An accepted character is the encoding of its code point exactly if it is not overlong. */
  lemma {:induction false} CharExact(s: seq<byte>, p: nat)
    requires Terminated(s) && p < |s| && Wtf8At(s, p).code != -1
    ensures var r := Wtf8At(s, p); s[p..r.next] == Encode(r.code) <==> !Overlong(s, p)
    ensures forall k | p < k < Wtf8At(s, p).next :: IsContinuation(s[k])
  {
    var r := Wtf8At(s, p);
    var w := s[p..r.next];
    assert forall k | 0 <= k < |w| :: w[k] == s[p + k];
    if |w| == 2 {
      Encoded(r.code, 0, 0, s[p] - 0xC0, s[p + 1] - 0x80);
    } else if |w| == 3 {
      ThreeBytes(w, r.code);
    } else if |w| == 4 {
      FourBytes(w, r.code);
    }
  }

  lemma {:induction false} ThreeBytes(w: seq<byte>, c: nat)
    requires |w| == 3 && 0xE0 <= w[0] <= 0xEF && IsContinuation(w[1]) && IsContinuation(w[2])
    requires c == (w[0] as int - 0xE0) * 4096 + (w[1] as int - 0x80) * 64 + (w[2] as int - 0x80)
    ensures w == Encode(c) <==> !(w[0] == 0xE0 && w[1] < 0xA0)
  {
    if c >= 0x800 { Encoded(c, 0, w[0] - 0xE0, w[1] - 0x80, w[2] - 0x80); }
  }

  lemma {:induction false} FourBytes(w: seq<byte>, c: nat)
    requires |w| == 4 && 0xF0 <= w[0] <= 0xF4 && IsContinuation(w[1]) && IsContinuation(w[2]) && IsContinuation(w[3])
    requires c == (w[0] as int - 0xF0) * 262144 + (w[1] as int - 0x80) * 4096 + (w[2] as int - 0x80) * 64
        + (w[3] as int - 0x80) <= 0x10FFFF
    ensures w == Encode(c) <==> !(w[0] == 0xF0 && w[1] < 0x90)
  {
    if c >= 0x10000 { Encoded(c, w[0] - 0xF0, w[1] - 0x80, w[2] - 0x80, w[3] - 0x80); }
  }

  /** A C string: its NUL is its last byte and its only one. */
  predicate IsCString(s: seq<byte>) { Terminated(s) && forall k | 0 <= k < |s| - 1 :: s[k] != 0 }

  function EncodePoints(cs: seq<nat>): seq<byte>
    requires Bounded(cs)
  {
    if cs == [] then [] else Encode(cs[0]) + EncodePoints(cs[1..])
  }

  predicate NoOverlong(s: seq<byte>, p: nat) { forall k | p <= k < |s| :: !Overlong(s, k) }

  /** One encoded character is accepted, and begins nothing overlong. */
  lemma {:induction false} EncodedStep(s: seq<byte>, p: nat, c: nat, rest: seq<byte>) returns (q: nat)
    requires IsCString(s) && c <= 0x10FFFF && p <= |s| && s[p..] == Encode(c) + rest && Terminated(rest)
    ensures p < q < |s| && s[q..] == rest && PointsOf(s, p) == Cons(c, PointsOf(s, q))
    ensures forall k | p <= k < q :: !Overlong(s, k)
  {
    var e := Encode(c);
    assert s[p] == s[p..][0] == e[0] && |s[p..]| > 1;
    q := ReadOne(s, p, c, rest);
    assert s[p..][..|e|] == e && s[p..][|e|..] == rest && |s[q..]| == |rest|;
    assert q == p + |e| && s[p..q] == e;
    ReadEncoded(s, p, c);
    CharExact(s, p);
  }

  lemma {:induction false} NextEncoded(s: seq<byte>, p: nat, cs: seq<nat>) returns (q: nat)
    requires IsCString(s) && Bounded(cs) && cs != [] && p <= |s| && s[p..] == EncodePoints(cs) + [0]
    ensures p < q < |s| && s[q..] == EncodePoints(cs[1..]) + [0] && PointsOf(s, p) == Cons(cs[0], PointsOf(s, q))
    ensures forall k | p <= k < q :: !Overlong(s, k)
  {
    Regroup(Encode(cs[0]), EncodePoints(cs[1..]), [0]);
    q := EncodedStep(s, p, cs[0], EncodePoints(cs[1..]) + [0]);
  }

  /** Every encoded text is accepted. */
  lemma {:induction false} EncodedAccepted(s: seq<byte>, p: nat, cs: seq<nat>)
    requires IsCString(s) && Bounded(cs) && p <= |s| && s[p..] == EncodePoints(cs) + [0]
    ensures p < |s| && PointsOf(s, p) == Legal(cs + [0])
    decreases |cs|
  {
    if cs == [] {
      ReadEnd(s, p);
    } else {
      var q := NextEncoded(s, p, cs);
      EncodedAccepted(s, q, cs[1..]);
      FirstAgain(cs);
    }
  }

  lemma {:induction false} FirstAgain(cs: seq<nat>)
    requires cs != []
    ensures Cons(cs[0], Legal(cs[1..] + [0])) == Legal(cs + [0])
  {
    assert [cs[0]] + (cs[1..] + [0]) == cs + [0];
  }

  /** It holds nothing overlong. */
  lemma {:induction false} EncodedShort(s: seq<byte>, p: nat, cs: seq<nat>)
    requires IsCString(s) && Bounded(cs) && p <= |s| && s[p..] == EncodePoints(cs) + [0]
    ensures NoOverlong(s, p)
    decreases |cs|
  {
    if cs == [] {
      ReadEnd(s, p);
    } else {
      var q := NextEncoded(s, p, cs);
      EncodedShort(s, q, cs[1..]);
    }
  }

  /** Every accepted text without overlong forms is the encoding of its code points. */
  lemma {:induction false} AcceptedEncoded(s: seq<byte>, p: nat) returns (cs: seq<nat>)
    requires IsCString(s) && p < |s| && PointsOf(s, p).Legal? && NoOverlong(s, p)
    ensures Bounded(cs) && s[p..] == EncodePoints(cs) + [0]
    decreases |s| - p
  {
    var r := Wtf8At(s, p);
    CharExact(s, p);
    if s[r.next - 1] == 0 {
      cs := [];
      assert s[p..] == [0];
    } else {
      var rest := AcceptedEncoded(s, r.next);
      cs := [r.code] + rest;
      assert cs[1..] == rest && s[p..] == s[p..r.next] + s[r.next..];
      Regroup(Encode(r.code), EncodePoints(rest), [0]);
    }
  }

  /** What the decoder takes for a text: exactly the encodings of code points, surrogates included, and besides them
      only texts with an overlong form, which is to be seen in two bytes. */
  lemma {:induction false} TextExact(s: seq<byte>)
    requires IsCString(s)
    ensures (exists cs | Bounded(cs) :: s == EncodePoints(cs) + [0]) <==> PointsOf(s, 0).Legal? && NoOverlong(s, 0)
  {
    assert s[0..] == s;
    if PointsOf(s, 0).Legal? && NoOverlong(s, 0) {
      var cs := AcceptedEncoded(s, 0);
    }
    forall cs | Bounded(cs) && s == EncodePoints(cs) + [0] ensures PointsOf(s, 0).Legal? && NoOverlong(s, 0) {
      EncodedAccepted(s, 0, cs);
      EncodedShort(s, 0, cs);
    }
  }

  /** Two overlong forms, of U+0000 and of the slash, that are accepted. */
  lemma {:induction false} OverlongAccepted()
    ensures PointsOf([0xE0, 0x80, 0x80, 0], 0) == Legal([0, 0])
    ensures PointsOf([0xF0, 0x80, 0x80, 0xAF, 0], 0) == Legal(['/' as int, 0])
  {
    assert PointsOf([0xE0, 0x80, 0x80, 0], 3) == Legal([0]);
    assert Wtf8At([0xE0, 0x80, 0x80, 0], 0) == Decoded(0, 3);
    assert PointsOf([0xF0, 0x80, 0x80, 0xAF, 0], 4) == Legal([0]);
    assert Wtf8At([0xF0, 0x80, 0x80, 0xAF, 0], 0) == Decoded('/' as int, 4);
  }

  // ---------- uv_wtf8_length_as_utf16 and uv_wtf8_to_utf16 ----------

  lemma {:induction false} CountStep(c: nat, t: Reading)
    ensures match Cons(c, t) case Illegal =>
        t.Illegal? case Legal(cs) => t.Legal? && UnitCount(cs) == (if c > 0xFFFF then 2 else 1) + UnitCount(t.chars)
  {
    if t.Legal? { assert ([c] + t.chars)[1..] == t.chars; }
  }

  /** uv_wtf8_length_as_utf16 */
  method Wtf8LengthAsUtf16(s: seq<byte>) returns (n: int)
    requires Terminated(s)
    ensures match PointsOf(s, 0) case Illegal => n == -1 case Legal(cs) => n == UnitCount(cs)
  {
    n := 0;
    var p := 0;
    while true
      invariant p < |s| && 0 <= n
      invariant match PointsOf(s, 0) case Illegal => PointsOf(s, p).Illegal?
                case Legal(cs) => PointsOf(s, p).Legal? && UnitCount(cs) == n + UnitCount(PointsOf(s, p).chars)
      decreases |s| - p
    {
      var r := Wtf8At(s, p);
      if r.code < 0 { return -1; }
      if s[r.next - 1] != 0 { CountStep(r.code, PointsOf(s, r.next)); }
      if r.code > 0xFFFF { n := n + 1; }
      n := n + 1;
      if s[r.next - 1] == 0 { break; }
      p := r.next;
    }
  }

  /** Lines 396-404: the units for one code point, unless the assertion in the branch fails. */
  method WriteUnits(c: nat) returns (ok: bool, units: seq<unit>)
    requires c <= 0x10FFFF
    ensures ok <==> c != 0x10FFFF
    ensures ok ==> units == UnitsFor(c)
  {
    ok, units := true, [];
    if c > 0x10000 {
      if c >= 0x10FFFF { return false, []; }
      units := [0xD800 + (c - 0x10000) / 1024, 0xDC00 + (c - 0x10000) % 1024];
    } else {
      units := [c % 0x10000];
    }
  }

  /** How the length the caller passed runs ahead: by one for each U+10000. */
  ghost predicate InStep(all: seq<nat>, left: seq<nat>, target: seq<unit>, room: int) {
    match Bounded(all) && Bounded(left)
    case false => false
    case true =>
      && room >= UnitCount(left) && (Passes(all) <==> Passes(left) && room == UnitCount(left))
      && (Passes(all) ==> UnitsOf(all) == target + UnitsOf(left))
  }

  lemma {:induction false} InStepNext(all: seq<nat>, c: nat, rest: seq<nat>, target: seq<unit>, room: int)
    requires InStep(all, [c] + rest, target, room) && c <= 0x10FFFF
    ensures c == 0x10FFFF ==> !Passes(all)
    ensures c != 0x10FFFF ==> InStep(all, rest, target + UnitsFor(c), room - |UnitsFor(c)|)
  {
    var left := [c] + rest;
    assert left[1..] == rest;
    forall k | 0 <= k < |rest| ensures rest[k] <= 0x10FFFF { assert left[k + 1] == rest[k]; }
    PassesCons(c, rest);
    assert target + (UnitsFor(c) + UnitsOf(rest)) == target + UnitsFor(c) + UnitsOf(rest);
  }

  lemma {:induction false} PointsNext(s: seq<byte>, p: nat) returns (rest: seq<nat>)
    requires Terminated(s) && p < |s| && PointsOf(s, p).Legal?
    ensures var r := Wtf8At(s, p); r.code >= 0 && PointsOf(s, p).chars == [r.code] + rest
    ensures var r := Wtf8At(s, p); if s[r.next - 1] == 0 then rest == [] else PointsOf(s, r.next) == Legal(rest)
  {
    var r := Wtf8At(s, p);
    rest := if s[r.next - 1] == 0 then [] else PointsOf(s, r.next).chars;
  }

  /** uv_wtf8_to_utf16 for a text that its length function accepts; `ok` says that no assertion fails. */
  method Wtf8ToUtf16(s: seq<byte>, wlen: nat) returns (ok: bool, target: seq<unit>)
    requires Terminated(s) && PointsOf(s, 0).Legal? && wlen == UnitCount(PointsOf(s, 0).chars)
    ensures ok <==> Converted(s).Legal?
    ensures ok ==> Converted(s) == Legal(target)
  {
    target := [];
    var p, room: int := 0, wlen;
    ghost var all, left := PointsOf(s, 0).chars, PointsOf(s, 0).chars;
    assert [] + (if Passes(all) then UnitsOf(all) else []) == if Passes(all) then UnitsOf(all) else [];
    while true
      invariant p < |s| && PointsOf(s, p) == Legal(left) && InStep(all, left, target, room)
      decreases |s| - p
    {
      var r := Wtf8At(s, p);
      left := PointsNext(s, p);
      InStepNext(all, r.code, left, target, room);
      var fine, units := WriteUnits(r.code);
      if !fine { return false, target; }
      target, room := target + units, room - |units|;
      if s[r.next - 1] == 0 { break; }
      p := r.next;
    }
    assert target + [] == target;
    ok := room == 0;
  }

  // ---------- uv_utf16_length_as_wtf8 and uv_utf16_to_wtf8 ----------

  /** The buffer at unit i: `wlen` units are left, or it is -1 and a NUL follows. */
  predicate Holds(buf: seq<unit>, wlen: int, us: seq<unit>, i: nat) {
    match i <= |us|
    case true => (wlen == |us| - i && buf == us) || (wlen == -1 && buf == us + [0] && NulFree(us))
    case false => false
  }

  /** uv__get_surrogate_value as it is called */
  function Surrogate(buf: seq<unit>, i: nat, wlen: int): nat
    requires i < |buf| && (IsHigh(buf[i]) && wlen != 1 ==> i + 1 < |buf|)
  {
    if IsHigh(buf[i]) && wlen != 1 && IsLow(buf[i + 1]) then PairValue(buf[i], buf[i + 1]) else buf[i]
  }

  lemma {:induction false} SurrogateIs(buf: seq<unit>, wlen: int, us: seq<unit>, i: nat)
    requires Holds(buf, wlen, us, i) && wlen != 0
    ensures i < |buf| && (IsHigh(buf[i]) && wlen != 1 ==> i + 1 < |buf|)
    ensures if i < |us| then Surrogate(buf, i, wlen) == PointAt(us, i) else wlen == -1 && Surrogate(buf, i, wlen) == 0
    ensures i < |us| && wlen < 0 ==> PointAt(us, i) != 0
    ensures i < |us| ==> Holds(buf, if wlen > 0 then wlen - Width(us, i) else wlen, us, i + Width(us, i))
  {
  }

  lemma {:induction false} EncodingStep(us: seq<unit>, i: nat)
    requires i < |us|
    ensures |Encode(PointAt(us, i))| == var c := PointAt(us, i);
        if c < 0x80 then 1 else if c < 0x800 then 2 else if c < 0x10000 then 3 else 4
    ensures |Encoding(us, i)| == |Encode(PointAt(us, i))| + |Encoding(us, i + Width(us, i))|
  {
  }

  /** uv_utf16_length_as_wtf8 from unit i0 on. */
  method Utf16LengthAsWtf8(buf: seq<unit>, i0: nat, wlen0: int, ghost us: seq<unit>) returns (n: nat)
    requires Holds(buf, wlen0, us, i0)
    ensures n == |Encoding(us, i0)|
  {
    n := 0;
    var i, wlen := i0, wlen0;
    while wlen != 0
      invariant Holds(buf, wlen, us, i) && |Encoding(us, i0)| == n + |Encoding(us, i)|
      decreases |us| - i
    {
      SurrogateIs(buf, wlen, us, i);
      var c := Surrogate(buf, i, wlen);
      if wlen < 0 && c == 0 { break; }
      EncodingStep(us, i);
      if c < 0x80 {
        n := n + 1;
      } else if c < 0x800 {
        n := n + 2;
      } else if c < 0x10000 {
        n := n + 3;
      } else {
        n := n + 4;
        i := i + 1;
        if wlen > 0 { wlen := wlen - 1; }
      }
      i := i + 1;
      if wlen > 0 { wlen := wlen - 1; }
    }
  }

  /** Lines 504-529: the bytes of one character, up to the end of the room. */
  method PutChar(target: array<byte>, t0: nat, cap: nat, c: nat) returns (t: nat, cut: bool)
    requires t0 < cap < target.Length && c <= 0x10FFFF
    modifies target
    ensures cut <==> t0 + |Encode(c)| > cap
    ensures t == (if cut then cap else t0 + |Encode(c)|) && target[..t] == old(target[..t0]) + Encode(c)[..t - t0]
  {
    var e := Encode(c);
    t, cut := t0, false;
    var k := 0;
    assert e[..0] == [];
    while k < |e|
      invariant k <= |e| && t == t0 + k <= cap && (k < |e| ==> t < cap) && target[..t] == old(target[..t0]) + e[..k]
    {
      target[t] := e[k];
      assert target[..t + 1] == target[..t] + [e[k]] && e[..k + 1] == e[..k] + [e[k]];
      t, k := t + 1, k + 1;
      if k < |e| && t == cap { return t, true; }
    }
  }

  /** How far the reported length overshoots: by the room, if the first character is cut. */
  function Overshoot(us: seq<unit>, cap: nat): nat { if us != [] && 0 < cap < |Encode(PointAt(us, 0))| then cap else 0 }

  /** One character: all of it, or as much as there is room for. */
  method FillOne(target: array<byte>, t0: nat, cap: nat, c: nat, ghost us: seq<unit>, ghost i: nat)
      returns (t: nat, full: bool)
    requires t0 < cap < target.Length && i < |us| && c == PointAt(us, i)
        && Encoding(us, 0) == target[..t0] + Encoding(us, i)
    modifies target
    ensures t == (if full then cap else t0 + |Encode(c)|) && (full <==> t0 + |Encode(c)| > cap)
    ensures if full then target[..cap] <= Encoding(us, 0) && cap < |Encoding(us, 0)|
        else Encoding(us, 0) == target[..t] + Encoding(us, i + Width(us, i))
  {
    ghost var before := target[..t0];
    t, full := PutChar(target, t0, cap, c);
    Grown(before, target[..t], Encode(c), Encoding(us, i + Width(us, i)), Encoding(us, 0));
  }

  function FirstSize(us: seq<unit>): nat { if us == [] then 0 else |Encode(PointAt(us, 0))| }

  /** Lines 497-538: one turn of the loop; it ends at the NUL, or when the room is full. */
  method FillTurn(buf: seq<unit>, wlen0: int, target: array<byte>, t0: nat, cap: nat, i0: nat, ghost us: seq<unit>)
      returns (t: nat, i: nat, wlen: int, ended: bool, full: bool)
    requires Holds(buf, wlen0, us, i0) && wlen0 != 0 && t0 < cap < target.Length
    requires Encoding(us, 0) == target[..t0] + Encoding(us, i0)
    modifies target
    ensures ended ==> i0 == |us| && t == t0 && target[..t] == old(target[..t0])
    ensures full ==> !ended && t == cap && i == i0 && wlen == wlen0 && i < |us| && cap < |Encoding(us, 0)|
    ensures full ==> t0 + |Encode(PointAt(us, i))| > cap && target[..cap] <= Encoding(us, 0)
    ensures !ended && !full ==> i0 < |us| && i == i0 + Width(us, i0) && Holds(buf, wlen, us, i)
    ensures !ended && !full ==> t == t0 + |Encode(PointAt(us, i0))| <= cap
    ensures !ended && !full ==> Encoding(us, 0) == target[..t] + Encoding(us, i)
  {
    t, i, wlen, ended, full := t0, i0, wlen0, false, false;
    SurrogateIs(buf, wlen, us, i);
    var c := Surrogate(buf, i, wlen);
    if wlen < 0 && c == 0 {
      ended := true;
      return;
    }
    t, full := FillOne(target, t, cap, c, us, i);
    if full { return; }
    if c >= 0x10000 {
      i := i + 1;
      if wlen > 0 { wlen := wlen - 1; }
    }
    i := i + 1;
    if wlen > 0 { wlen := wlen - 1; }
  }

  /** Where the loop stands: what is written, what remains, and the length reported if it stops here. */
  ghost predicate Filling(us: seq<unit>, out: seq<byte>, i: nat, cap: nat, whole: nat, first: nat) {
    match i <= |us| && |out| <= cap
    case false => false
    case true =>
      && Encoding(us, 0) == out + Encoding(us, i)
      && if i == 0 then out == [] && whole == cap else whole == |out| && first <= |out|
  }

  lemma {:induction false} FillNext(us: seq<unit>, out: seq<byte>, i: nat, cap: nat, whole: nat, first: nat,
      out': seq<byte>)
    requires first == FirstSize(us) && Filling(us, out, i, cap, whole, first) && i < |us|
    requires |out'| == |out| + |Encode(PointAt(us, i))| <= cap
        && Encoding(us, 0) == out' + Encoding(us, i + Width(us, i))
    ensures Filling(us, out', i + Width(us, i), cap, |out'|, first)
  {
  }

  /** How the loop ends: with everything written, or with the room full, `wlen` units left from i on,
      and `whole` short of the length reported by what is counted from there. */
  ghost predicate Filled(us: seq<unit>, buf: seq<unit>, out: seq<byte>, i: nat, wlen: int, cap: nat, whole: nat,
      first: nat) {
    match out <= Encoding(us, 0) && |out| <= cap
    case false => false
    case true =>
      if wlen == 0 then |out| == |Encoding(us, 0)|
      else
        && |out| == cap && Holds(buf, wlen, us, i)
        && (if i < |us| then cap < |Encoding(us, 0)| else cap == |Encoding(us, 0)|)
        && whole + |Encoding(us, i)| == |Encoding(us, 0)| + if 0 < cap < first then cap else 0
  }

  lemma {:induction false} FilledToEnd(us: seq<unit>, buf: seq<unit>, out: seq<byte>, at: nat, i: nat, cap: nat,
      whole: nat, first: nat)
    requires Filling(us, out, at, cap, whole, first) && at == |us|
    ensures Filled(us, buf, out, i, 0, cap, whole, first)
  {
    assert out + [] == out;
  }

  lemma {:induction false} FilledUp(us: seq<unit>, buf: seq<unit>, out: seq<byte>, out': seq<byte>, i: nat, wlen: int,
      cap: nat, whole: nat, first: nat)
    requires Filling(us, out, i, cap, whole, first) && Holds(buf, wlen, us, i) && wlen != 0 && first == FirstSize(us)
    requires i < |us| && |out'| == cap && out' <= Encoding(us, 0) && cap < |Encoding(us, 0)| && |out| < cap
    requires |out| + |Encode(PointAt(us, i))| > cap
    ensures Filled(us, buf, out', i, wlen, cap, whole, first)
  {
  }

  lemma {:induction false} FilledExactly(us: seq<unit>, buf: seq<unit>, out: seq<byte>, i: nat, wlen: int, cap: nat,
      whole: nat, first: nat)
    requires Filling(us, out, i, cap, whole, first) && Holds(buf, wlen, us, i) && (|out| == cap || wlen == 0)
    requires first == FirstSize(us)
    ensures Filled(us, buf, out, i, wlen, cap, whole, first)
  {
    if i < |us| { EncodingStep(us, i); } else { assert out + [] == out; }
  }

  /** One turn, in terms of where the loop stands. */
  method FillOn(buf: seq<unit>, wlen0: int, target: array<byte>, t0: nat, cap: nat, i0: nat, whole0: nat,
      ghost us: seq<unit>, ghost first: nat)
      returns (t: nat, i: nat, wlen: int, whole: nat, stop: bool)
    requires Holds(buf, wlen0, us, i0) && wlen0 != 0 && t0 < cap < target.Length && first == FirstSize(us)
    requires Filling(us, target[..t0], i0, cap, whole0, first)
    modifies target
    ensures t <= cap && (stop ==> Filled(us, buf, target[..t], i, wlen, cap, whole, first))
    ensures !stop ==> i0 < i <= |us| && Holds(buf, wlen, us, i) && Filling(us, target[..t], i, cap, whole, first)
  {
    ghost var out := target[..t0];
    var full;
    t, i, wlen, stop, full := FillTurn(buf, wlen0, target, t0, cap, i0, us);
    whole := whole0;
    if stop {
      wlen := 0;
      FilledToEnd(us, buf, out, i0, i, cap, whole, first);
    } else if full {
      stop := true;
      FilledUp(us, buf, out, target[..t], i, wlen, cap, whole, first);
    } else {
      FillNext(us, out, i0, cap, whole, first, target[..t]);
      whole := t;
    }
  }

  /** Lines 494-539: fills the room, character by character. */
  method Fill(buf: seq<unit>, wlen0: int, target: array<byte>, cap: nat, ghost us: seq<unit>, ghost first: nat)
      returns (t: nat, i: nat, wlen: int, whole: nat)
    requires Holds(buf, wlen0, us, 0) && cap < target.Length && first == FirstSize(us)
    modifies target
    ensures t <= cap && Filled(us, buf, target[..t], i, wlen, cap, whole, first)
  {
    i, wlen, t, whole := 0, wlen0, 0, cap;
    StartFilling(us, cap, first);
    assert target[..0] == [];
    while t != cap && wlen != 0
      invariant t <= cap && i <= |us| && Holds(buf, wlen, us, i) && Filling(us, target[..t], i, cap, whole, first)
      decreases |us| - i
    {
      var stop;
      t, i, wlen, whole, stop := FillOn(buf, wlen, target, t, cap, i, whole, us, first);
      if stop { return; }
    }
    FilledExactly(us, buf, target[..t], i, wlen, cap, whole, first);
  }

  lemma {:induction false} StartFilling(us: seq<unit>, cap: nat, first: nat)
    ensures Filling(us, [], 0, cap, cap, first)
  {
    assert [] + Encoding(us, 0) == Encoding(us, 0);
  }

  /** uv_utf16_to_wtf8 into a given buffer of `cap` bytes and room for the NUL. */
  method Utf16ToWtf8(buf: seq<unit>, wlen0: int, target: array<byte>, ghost us: seq<unit>) returns (rc: int, len: nat)
    requires Holds(buf, wlen0, us, 0) && target.Length > 0
    modifies target
    ensures rc == if |Encoding(us, 0)| <= target.Length - 1 then 0 else UV_ENOBUFS
    ensures rc == 0 ==> len == |Encoding(us, 0)| && target[..len] == Encoding(us, 0) && target[len] == 0
    ensures rc != 0 ==> len == |Encoding(us, 0)| + Overshoot(us, target.Length - 1)
    ensures rc != 0 ==>
        target[..target.Length - 1] == Encoding(us, 0)[..target.Length - 1] && target[target.Length - 1] == 0
  {
    var cap := target.Length - 1;
    var t, i, wlen, whole := Fill(buf, wlen0, target, cap, us, FirstSize(us));
    len := cap;
    if t != cap { len := t; }
    if wlen < 0 && t == cap && buf[i] == 0 { wlen := 0; }
    ghost var written := target[..t];
    target[t] := 0;
    assert target[..t] == written;
    if wlen != 0 {
      var rest := Utf16LengthAsWtf8(buf, i, wlen, us);
      return UV_ENOBUFS, whole + rest;
    }
    rc := 0;
  }

  lemma {:induction false} Grown(before: seq<byte>, after: seq<byte>, e: seq<byte>, rest: seq<byte>, all: seq<byte>)
    requires all == before + (e + rest) && |before| <= |after| <= |before| + |e|
        && after == before + e[..|after| - |before|]
    ensures after <= all && (|after| == |before| + |e| ==> all == after + rest)
  {
  }
}
