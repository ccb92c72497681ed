/** uv__idna_toascii of src/idna.c: UTF-8 names to ASCII ones, label by label, into a buffer that
    silently drops what does not fit until the very last check. */
module Idna {
  import opened Arith
  import opened Common
  import opened Utf8
  import opened Punycode

  const U32_MAX := 0xFFFF_FFFF
  const INT_MAX := 0x7FFF_FFFF
  const UV_EINVAL := -22
  const UV_E2BIG := -7

  type u32 = x: int | 0 <= x <= U32_MAX

  /** All of `w` has been sent to the buffer and its first d bytes are there; d is short of the
      length of `w` only because the buffer is full. */
  ghost predicate Written(dst: array<byte>, d: nat, w: seq<byte>)
    reads dst
  {
    match d == if |w| < dst.Length then |w| else dst.Length
    case true => dst[..d] == w[..d]
    case false => false
  }

  /** `if (*d < de) *(*d)++ = c;` behind the bytes `w` and then `more`. */
  method Put(dst: array<byte>, d: nat, c: byte, ghost w: seq<byte>, ghost more: seq<byte>) returns (d': nat)
    requires Written(dst, d, w + more)
    modifies dst
    ensures Written(dst, d', w + (more + [c]))
  {
    assert w + (more + [c]) == w + more + [c];
    d' := d;
    if d < dst.Length {
      dst[d] := c;
      d' := d + 1;
      assert dst[..d'] == dst[..d] + [c];
    }
  }

  lemma {:induction false} Shift<T>(a: seq<T>, x: T, b: seq<T>)
    ensures a + ([x] + b) == a + [x] + b
  {
  }

  // ---------- What a label becomes ----------

  /** Every delta fits the 32-bit counter. */
  predicate Fit(deltas: seq<nat>) { deltas == [] || (deltas[0] <= U32_MAX && Fit(deltas[1..])) }

  predicate LabelFits(cs: seq<nat>) { Fit(Deltas(cs)) }

  const PREFIX: seq<byte> := ['x' as int, 'n' as int, '-' as int, '-' as int]

  function LabelText(cs: seq<nat>): seq<byte> {
    if IsAscii(cs) then ToBytes(cs) else PREFIX + Text(cs)
  }

  // ---------- Walking over the characters again and again ----------

  /** The cursor p stands before character j of the label. */
  ghost predicate Cursor(s: seq<byte>, p: nat, se: nat, cs: seq<nat>, j: nat) {
    match p <= se <= |s| && j <= |cs|
    case true => Chars(s, p, se) == Legal(cs[j..])
    case false => false
  }

  lemma {:induction false} Advance(s: seq<byte>, p: nat, se: nat, cs: seq<nat>, j: nat)
    requires Cursor(s, p, se, cs, j)
    ensures p < se <==> j < |cs|
    ensures p < se ==> var r := Decode1(s, p, se); r.code == cs[j] && Cursor(s, r.next, se, cs, j + 1)
  {
    if p < se {
      var r := Decode1(s, p, se);
      var rest := Chars(s, r.next, se);
      assert cs[j..] == [r.code] + rest.chars;
      assert cs[j + 1..] == cs[j..][1..] == rest.chars;
    }
  }

  /** The characters of s[ss..se], seen from behind the first of them. */
  function Prepend(seen: seq<nat>, t: Reading): Reading {
    match t
    case Legal(cs) => Legal(seen + cs)
    case Illegal => Illegal
  }

  lemma {:induction false} CountOne(seen: seq<nat>, s: seq<byte>, p: nat, se: nat)
    requires p < se <= |s| && Decode1(s, p, se).code != -1
    ensures var r := Decode1(s, p, se);
      Prepend(seen, Chars(s, p, se)) == Prepend(seen + [r.code], Chars(s, r.next, se))
  {
    var r := Decode1(s, p, se);
    match Chars(s, r.next, se)
    case Legal(rest) => Shift(seen, r.code, rest);
    case Illegal =>
  }

  lemma {:induction false} BasicOne(cs: seq<nat>, c: nat)
    ensures Basic(cs + [c]) == Basic(cs) + if c < 128 then [c] else []
  {
    assert (cs + [c])[..|cs|] == cs;
  }

  /** First loop: checks the characters and counts the ASCII ones and the others. */
  method Count(s: seq<byte>, ss: nat, se: nat) returns (ok: bool, h: u32, todo: u32)
    requires ss <= se <= |s| <= INT_MAX
    ensures ok <==> Chars(s, ss, se).Legal?
    ensures ok ==> var cs := Chars(s, ss, se).chars; h == |Basic(cs)| && todo == |cs| - h
  {
    h, todo := 0, 0;
    var p := ss;
    ghost var seen: seq<nat> := [];
    ghost var t := Chars(s, ss, se);
    assert t.Legal? ==> [] + t.chars == t.chars;
    while p < se
      invariant ss <= p <= se
      invariant t == Prepend(seen, Chars(s, p, se))
      invariant |seen| <= p - ss && h == |Basic(seen)| && todo == |seen| - h
    {
      var r := Decode1(s, p, se);
      if r.code == -1 { return false, h, todo; }
      CountOne(seen, s, p, se);
      BasicOne(seen, r.code);
      if r.code < 128 { h := h + 1; } else { todo := todo + 1; }
      seen, p := seen + [r.code], r.next;
    }
    assert seen + [] == seen;
    ok := true;
  }

  /** `basic` are the ASCII characters among the first j. */
  ghost predicate Copied(cs: seq<nat>, j: nat, basic: seq<byte>) {
    match j <= |cs| && IsAscii(Basic(cs[..j]))
    case true => basic == ToBytes(Basic(cs[..j])) && |basic| <= |Basic(cs)|
    case false => false
  }

  lemma {:induction false} BasicStep(cs: seq<nat>, j: nat, basic: seq<byte>)
    requires j < |cs| && Copied(cs, j, basic)
    ensures Copied(cs, j + 1, basic + if cs[j] < 128 then [cs[j]] else [])
  {
    assert cs[..j + 1] == cs[..j] + [cs[j]];
    BasicOne(cs[..j], cs[j]);
    BasicIsAscii(cs[..j + 1]);
    DonePrefix(cs, 128, j + 1, 0);
  }

  /** Second loop: writes the ASCII characters, stopping at the last. */
  method WriteBasic(s: seq<byte>, ss: nat, se: nat, h: u32, dst: array<byte>, d0: nat, ghost w: seq<byte>,
      ghost cs: seq<nat>)
    returns (d: nat)
    requires Cursor(s, ss, se, cs, 0) && AllScalar(cs) && h == |Basic(cs)| && Written(dst, d0, w)
    modifies dst
    ensures IsAscii(Basic(cs)) && Written(dst, d, w + ToBytes(Basic(cs)))
  {
    d := d0;
    var p, x := ss, 0;
    ghost var j, basic: seq<byte> := 0, [];
    NothingCopied(cs);
    assert w + [] == w;
    while p < se
      invariant Cursor(s, p, se, cs, j) && Copied(cs, j, basic) && Written(dst, d, w + basic)
      invariant x == |basic| && (h > 0 ==> x < h)
      decreases se - p
    {
      Advance(s, p, se, cs, j);
      var r := Decode1(s, p, se);
      BasicStep(cs, j, basic);
      assert basic + [] == basic;
      p, j := r.next, j + 1;
      if r.code > 127 { continue; }
      d := Put(dst, d, r.code, w, basic);
      basic := basic + [r.code];
      x := x + 1;
      if x == h { break; }
    }
    AllBasic(s, p, se, cs, j, basic);
  }

  lemma {:induction false} NothingCopied(cs: seq<nat>)
    ensures Copied(cs, 0, [])
  {
    assert cs[..0] == [];
  }

  lemma {:induction false} AllBasic(s: seq<byte>, p: nat, se: nat, cs: seq<nat>, j: nat, basic: seq<byte>)
    requires Cursor(s, p, se, cs, j) && Copied(cs, j, basic) && (p == se || |basic| == |Basic(cs)|)
    ensures IsAscii(Basic(cs)) && basic == ToBytes(Basic(cs))
  {
    DonePrefix(cs, 128, j, 0);
    Advance(s, p, se, cs, j);
    assert j == |cs| ==> cs[..j] == cs;
  }

  /** The least character not below n. */
  method LeastFrom(s: seq<byte>, ss: nat, se: nat, n: u32, ghost cs: seq<nat>) returns (m: u32)
    requires Cursor(s, ss, se, cs, 0) && AllScalar(cs)
    ensures match Least(cs, n) case None => m == U32_MAX case Some(least) => m == least
  {
    m := U32_MAX;
    var p := ss;
    ghost var j := 0;
    assert cs[..0] == [];
    while p < se
      invariant Cursor(s, p, se, cs, j)
      invariant match Least(cs[..j], n) case None => m == U32_MAX case Some(least) => m == least < 0x110000
      decreases se - p
    {
      Advance(s, p, se, cs, j);
      assert cs[..j + 1][..j] == cs[..j];
      var r := Decode1(s, p, se);
      if r.code >= n && r.code < m { m := r.code; }
      p, j := r.next, j + 1;
    }
    Advance(s, p, se, cs, j);
    assert cs[..j] == cs;
  }

  // ---------- One delta ----------

  /** Lines 262-280: the threshold, and the digit it splits off q if q is not the last digit. */
  method SplitDigit(q: u32, k: nat, bias: nat) returns (last: bool, digit: nat, rest: u32)
    ensures last <==> q < Threshold(k, bias)
    ensures !last ==> digit < 36 && rest < q && Varint(q, k, bias) == [Digit(digit)] + Varint(rest, k + 36, bias)
  {
    var t := 1;
    if k > bias { t := k - bias; }
    if t > 26 { t := 26; }
    assert t == Threshold(k, bias);
    if q < t { return true, 0, q; }
    var x := q - t;
    var y := 36 - t;
    Quotient(x, y);
    last, digit, rest := false, t + x % y, x / y;
  }

  /** The inner loop with the long divisions. */
  method WriteDelta(delta: u32, bias: nat, dst: array<byte>, d0: nat, ghost w: seq<byte>) returns (d: nat)
    requires Written(dst, d0, w)
    modifies dst
    ensures Written(dst, d, w + Varint(delta, 36, bias))
  {
    d := d0;
    var k: nat, q: u32 := 36, delta;
    ghost var ds: seq<byte> := [];
    assert w + [] == w && [] + Varint(delta, 36, bias) == Varint(delta, 36, bias);
    while true
      invariant Written(dst, d, w + ds) && Varint(delta, 36, bias) == ds + Varint(q, k, bias)
      decreases q
    {
      var last, t, rest := SplitDigit(q, k, bias);
      if last { break; }
      d := Put(dst, d, Digit(t), w, ds);
      Shift(ds, Digit(t), Varint(rest, k + 36, bias));
      ds, q, k := ds + [Digit(t)], rest, k + 36;
    }
    d := Put(dst, d, Digit(q), w, ds);
  }

  /** Lines 289-305: the new bias, without overflow. */
  method NextBias(delta0: u32, h: u32, first: bool) returns (bias: nat)
    requires h > 0
    ensures bias == Adapt(delta0, h, first)
  {
    var delta: u32 := delta0 / 2;
    if first { delta := delta / 350; }
    Quotient(delta, h);
    ghost var start := delta + delta / h;
    delta := delta + delta / h;
    bias := 0;
    while delta > 35 * 26 / 2
      invariant Shrink(start, 0) == Shrink(delta, bias)
    {
      delta := delta / 35;
      bias := bias + 36;
    }
    bias := bias + 36 * delta / (delta + 38);
  }

  // ---------- When the counter would overflow ----------

  lemma {:induction false} ScanStarts(cs: seq<nat>, n: nat, j: nat, h: nat, delta: nat, k: nat)
    requires j <= k < |cs| && cs[k] == n <= Max(cs)
    ensures Scan(cs, n, j, h, delta) != [] && Scan(cs, n, j, h, delta)[0] >= delta
    decreases k - j
  {
    if cs[j] != n { ScanStarts(cs, n, j + 1, h, if cs[j] < n then delta + 1 else delta, k); }
  }

  lemma {:induction false} Overflows(x: nat, y: nat, room: nat)
    requires y > 0
    ensures x * y >= 0 && (x > room / y <==> x * y > room)
  {
    Product(x, y);
    Division(room, y);
    if x > room / y {
      AtLeast(x - room / y, y);
      assert x * y == room / y * y + (x - room / y) * y;
    } else {
      Product(room / y - x, y);
      assert room / y * y == x * y + (room / y - x) * y;
    }
  }

  lemma {:induction false} DoneAll(cs: seq<nat>, n: nat)
    requires |Done(cs, n, 0)| == |cs|
    ensures Least(cs, n) == None
  {
    if cs != [] { DoneAll(cs[..|cs| - 1], n); }
  }

  // ---------- One pass over the label ----------

  /** What is still to be emitted at character j of the pass for n: all of `digits`, after `out`;
      and the label fits exactly if the rest of it does. */
  ghost predicate Remaining(deltas: seq<nat>, digits: seq<byte>, fits: bool, out: seq<byte>, h: nat, bias: nat,
      first: bool) {
    match digits == out + Digits(deltas, h, bias, first)
    case true => fits <==> Fit(deltas)
    case false => false
  }

  lemma {:induction false} EmitOne(delta: nat, rest: seq<nat>, digits: seq<byte>, fits: bool, out: seq<byte>, h: nat,
      bias: nat, first: bool)
    requires Remaining([delta] + rest, digits, fits, out, h, bias, first) && delta <= U32_MAX
    ensures Remaining(rest, digits, fits, out + Varint(delta, 36, bias), h + 1, Adapt(delta, h + 1, first), false)
  {
    var deltas := [delta] + rest;
    assert deltas[1..] == rest;
    var more := Digits(rest, h + 1, Adapt(delta, h + 1, first), false);
    assert out + (Varint(delta, 36, bias) + more) == out + Varint(delta, 36, bias) + more;
  }

  ghost predicate Ahead(cs: seq<nat>, n: nat, j: nat) { exists k | j <= k < |cs| :: cs[k] == n }

  lemma {:induction false} TooBig(cs: seq<nat>, n: nat, j: nat, h: nat, delta: nat)
    requires Ahead(cs, n, j) && n <= Max(cs) && j <= |cs| && delta > U32_MAX
    ensures !Fit(Scan(cs, n, j, h, delta))
  {
    var k :| j <= k < |cs| && cs[k] == n;
    ScanStarts(cs, n, j, h, delta, k);
  }

  /** Counts and the cursor when character j has been looked at. */
  lemma {:induction false} DoneStep(cs: seq<nat>, n: nat, j: nat)
    requires j < |cs|
    ensures |Done(cs, n, j + 1)| == |Done(cs, n, j)| + if cs[j] == n then 1 else 0
  {
    if cs[j] == n { Insert(cs, n, j); } else { SkipDone(cs, n, j); }
  }

  lemma {:induction false} ScanStep(cs: seq<nat>, n: nat, j: nat, h: nat, delta: nat)
    requires j < |cs| && n <= Max(cs)
    ensures Scan(cs, n, j, h, delta) ==
      if cs[j] == n then [delta] + Scan(cs, n, j + 1, h + 1, 0)
          else Scan(cs, n, j + 1, h, if cs[j] < n then delta + 1 else delta)
    ensures cs[j] == n ==> Scan(cs, n, j, h, delta)[1..] == Scan(cs, n, j + 1, h + 1, 0)
  {
  }

  lemma {:induction false} PassEnds(s: seq<byte>, p: nat, se: nat, cs: seq<nat>, j: nat, n: nat, h: nat, delta: nat)
    requires Cursor(s, p, se, cs, j) && p == se && n <= Max(cs) && (Ahead(cs, n, j) || delta <= j)
    ensures Scan(cs, n, j, h, delta) == Pass(cs, n + 1, h, delta + 1) && Done(cs, n, j) == Done(cs, n + 1, 0)
        && delta <= |cs|
  {
    Advance(s, p, se, cs, j);
    PassOver(cs, n);
  }

  /** Lines 261-307: writes the delta and gets ready for the next. */
  method Emit(delta: u32, h0: u32, bias0: nat, first: bool, dst: array<byte>, d0: nat,
              ghost rest: seq<nat>, ghost out0: seq<byte>, ghost digits: seq<byte>, ghost fits: bool)
    returns (h: u32, bias: nat, d: nat, ghost out: seq<byte>)
    requires h0 < U32_MAX && Written(dst, d0, out0) && Remaining([delta] + rest, digits, fits, out0, h0, bias0, first)
    modifies dst
    ensures h == h0 + 1 && Written(dst, d, out) && Remaining(rest, digits, fits, out, h, bias, false)
  {
    d := WriteDelta(delta, bias0, dst, d0, out0);
    out := out0 + Varint(delta, 36, bias0);
    EmitOne(delta, rest, digits, fits, out0, h0, bias0, first);
    h := h0 + 1;
    bias := NextBias(delta, h, first);
  }

  /** `if (++delta == 0)`: a wrap-around happens only with an emission still to come. */
  method Increment(delta: u32, ghost cs: seq<nat>, ghost n: nat, ghost j: nat, ghost h: nat)
      returns (wrapped: bool, delta': u32)
    requires j < |cs| <= INT_MAX && cs[j] < n <= Max(cs) && (Ahead(cs, n, j) || delta <= j)
    ensures wrapped ==> !Fit(Scan(cs, n, j, h, delta))
    ensures !wrapped ==> delta' == delta + 1 && (Ahead(cs, n, j + 1) || delta' <= j + 1)
  {
    delta' := (delta + 1) % 0x1_0000_0000;
    wrapped := delta' == 0;
    if wrapped {
      ScanStep(cs, n, j, h, delta);
      TooBig(cs, n, j + 1, h, delta + 1);
    }
  }

  /** The encoder's counters. */
  datatype Counters = Counters(delta: u32, h: u32, todo: u32, bias: nat, first: bool)

  /** The counters before character j of the pass for n, with the deltas still to be emitted. */
  ghost predicate InPass(cs: seq<nat>, n: nat, j: nat, x: Counters, rest: seq<nat>)
    requires j <= |cs| && n <= Max(cs)
  {
    match rest == Scan(cs, n, j, x.h, x.delta)
    case true => x.h == |Done(cs, n, j)| && x.todo == |cs| - x.h && (Ahead(cs, n, j) || x.delta <= j)
    case false => false
  }

  /** Lines 254-307: one character of the pass. */
  method Visit(c: nat, n: u32, x0: Counters, dst: array<byte>, d0: nat, ghost cs: seq<nat>, ghost j: nat,
               ghost rest0: seq<nat>, ghost out0: seq<byte>, ghost digits: seq<byte>, ghost fits: bool)
    returns (ok: bool, x: Counters, d: nat, ghost rest: seq<nat>, ghost out: seq<byte>)
    requires j < |cs| <= INT_MAX && c == cs[j] && n <= Max(cs) && InPass(cs, n, j, x0, rest0)
    requires Written(dst, d0, out0) && Remaining(rest0, digits, fits, out0, x0.h, x0.bias, x0.first)
    modifies dst
    ensures !ok ==> !fits
    ensures ok ==> InPass(cs, n, j + 1, x, rest)
    ensures ok ==> Written(dst, d, out) && Remaining(rest, digits, fits, out, x.h, x.bias, x.first)
  {
    DoneStep(cs, n, j);
    ScanStep(cs, n, j, x0.h, x0.delta);
    ok, x, d, rest, out := true, x0, d0, rest0, out0;
    if c < n {
      var wrapped, delta := Increment(x.delta, cs, n, j, x.h);
      if wrapped { return false, x, d, rest, out; }
      x := x.(delta := delta);
    }
    if c != n { return; }
    rest := rest[1..];
    var h, bias;
    h, bias, d, out := Emit(x.delta, x.h, x.bias, x.first, dst, d, rest, out, digits, fits);
    x := Counters(0, h, x.todo - 1, bias, false);
  }

  /** The pass for n: lines 249-308. */
  method OnePass(s: seq<byte>, ss: nat, se: nat, n: u32, x0: Counters, dst: array<byte>, d0: nat, ghost cs: seq<nat>,
                 ghost rest0: seq<nat>, ghost out0: seq<byte>, ghost digits: seq<byte>, ghost fits: bool)
    returns (ok: bool, x: Counters, d: nat, ghost rest: seq<nat>, ghost out: seq<byte>)
    requires Cursor(s, ss, se, cs, 0) && AllScalar(cs) && |cs| <= INT_MAX && n <= Max(cs) && InPass(cs, n, 0, x0, rest0)
    requires Written(dst, d0, out0) && Remaining(rest0, digits, fits, out0, x0.h, x0.bias, x0.first)
    modifies dst
    ensures !ok ==> !fits
    ensures ok ==>
        x.h == |Done(cs, n + 1, 0)| && x.todo == |cs| - x.h && x.delta <= |cs|
        && rest == Pass(cs, n + 1, x.h, x.delta + 1)
    ensures ok ==> Written(dst, d, out) && Remaining(rest, digits, fits, out, x.h, x.bias, x.first)
  {
    x, d, rest, out := x0, d0, rest0, out0;
    var p := ss;
    ghost var j := 0;
    while p < se
      invariant Cursor(s, p, se, cs, j) && InPass(cs, n, j, x, rest)
      invariant Written(dst, d, out) && Remaining(rest, digits, fits, out, x.h, x.bias, x.first)
      decreases se - p
    {
      Advance(s, p, se, cs, j);
      var r := Decode1(s, p, se);
      p := r.next;
      ok, x, d, rest, out := Visit(r.code, n, x, dst, d, cs, j, rest, out, digits, fits);
      if !ok { return; }
      j := j + 1;
    }
    PassEnds(s, p, se, cs, j, n, x.h, x.delta);
    ok := true;
  }

  // ---------- The whole label ----------

  ghost predicate BeforePass(cs: seq<nat>, n: nat, x: Counters, rest: seq<nat>) {
    match rest == Pass(cs, n, x.h, x.delta)
    case true => x.h == |Done(cs, n, 0)| && x.todo == |cs| - x.h && x.delta <= |cs| + 1
    case false => false
  }

  lemma {:induction false} PassStarts(cs: seq<nat>, n: nat, x: Counters, rest: seq<nat>)
    requires BeforePass(cs, n, x, rest) && x.todo > 0
    ensures Least(cs, n).Some?
    ensures var m := Least(cs, n).value; var y := x.h + 1;
      && n <= m <= Max(cs) && m in cs && 0 <= (m - n) * y
      && rest == Scan(cs, m, 0, x.h, x.delta + (m - n) * y)
      && x.h == |Done(cs, m, 0)| && Ahead(cs, m, 0)
  {
    LeastIs(cs, n);
    if Least(cs, n) == None {
      AllDone(cs, n, 0);
    } else {
      var m := Least(cs, n).value;
      NextPass(cs, n, m, 0);
      Product(m - n, x.h + 1);
      var k :| 0 <= k < |cs| && cs[k] == m;
    }
  }

  /** Lines 228-247: the next code point, unless the delta would not fit. */
  method NextCodePoint(s: seq<byte>, ss: nat, se: nat, n: u32, x0: Counters, ghost cs: seq<nat>, ghost rest: seq<nat>)
    returns (m: u32, ok: bool, x: Counters)
    requires Cursor(s, ss, se, cs, 0) && AllScalar(cs) && BeforePass(cs, n, x0, rest) && 0 < x0.todo && |cs| <= INT_MAX
    ensures n <= m <= 0x10FFFF && m <= Max(cs)
    ensures if ok then InPass(cs, m, 0, x, rest) && x == x0.(delta := x.delta) else !Fit(rest)
  {
    PassStarts(cs, n, x0, rest);
    m := LeastFrom(s, ss, se, n, cs);
    var skip := m - n;
    var y := x0.h + 1;
    Overflows(skip, y, U32_MAX - x0.delta);
    ok, x := skip <= (U32_MAX - x0.delta) / y, x0;
    if ok {
      x := x0.(delta := x0.delta + skip * y);
    } else {
      TooBig(cs, m, 0, x0.h, x0.delta + skip * y);
    }
  }

  /** Lines 227-312: all passes. */
  method Passes(s: seq<byte>, ss: nat, se: nat, h: u32, todo: u32, dst: array<byte>, d0: nat, ghost cs: seq<nat>,
      ghost out0: seq<byte>)
    returns (ok: bool, d: nat)
    requires Cursor(s, ss, se, cs, 0) && AllScalar(cs) && |cs| <= INT_MAX
    requires h == |Basic(cs)| && todo == |cs| - h && Written(dst, d0, out0)
    modifies dst
    ensures ok <==> LabelFits(cs)
    ensures ok ==> Written(dst, d, out0 + Digits(Deltas(cs), h, 72, true))
  {
    d := d0;
    var n: u32, x := 128, Counters(0, h, todo, 72, true);
    ghost var rest, out, fits := Deltas(cs), out0, LabelFits(cs);
    ghost var digits := out0 + Digits(rest, h, 72, true);
    while x.todo > 0
      invariant n <= 0x110000 && BeforePass(cs, n, x, rest)
      invariant Written(dst, d, out) && Remaining(rest, digits, fits, out, x.h, x.bias, x.first)
      decreases 0x110001 - n
    {
      n, ok, x := NextCodePoint(s, ss, se, n, x, cs, rest);
      if !ok { return; }
      ok, x, d, rest, out := OnePass(s, ss, se, n, x, dst, d, cs, rest, out, digits, fits);
      if !ok { return; }
      x := x.(delta := x.delta + 1);
      n := n + 1;
    }
    DoneAll(cs, n);
    ok := true;
  }

  lemma {:induction false} AsciiLabel(cs: seq<nat>)
    ensures IsAscii(cs) <==> |Basic(cs)| == |cs|
    ensures IsAscii(cs) ==> Basic(cs) == cs && LabelFits(cs)
  {
    LeastIs(cs, 128);
    if IsAscii(cs) {
      AllDone(cs, 128, 0);
    } else if |Basic(cs)| == |cs| {
      DoneAll(cs, 128);
    }
  }

  method WritePrefix(dst: array<byte>, d0: nat, ghost w: seq<byte>) returns (d: nat)
    requires Written(dst, d0, w)
    modifies dst
    ensures Written(dst, d, w + PREFIX)
  {
    assert w + [] == w;
    d := Put(dst, d0, PREFIX[0], w, []);
    d := Put(dst, d, PREFIX[1], w, PREFIX[..1]);
    d := Put(dst, d, PREFIX[2], w, PREFIX[..2]);
    d := Put(dst, d, PREFIX[3], w, PREFIX[..3]);
  }

  /** uv__idna_toascii_label: what it returns and what it writes, whatever the room in the buffer. */
  method ToAsciiLabel(s: seq<byte>, ss: nat, se: nat, dst: array<byte>, d0: nat, ghost w: seq<byte>)
      returns (rc: int, d: nat)
    requires ss <= se <= |s| <= INT_MAX && Written(dst, d0, w)
    modifies dst
    ensures match Chars(s, ss, se)
      case Illegal => rc == UV_EINVAL
      case Legal(cs) => if LabelFits(cs) then rc >= 0 && Written(dst, d, w + LabelText(cs)) else rc == UV_E2BIG
  {
    d := d0;
    var ok, h, todo := Count(s, ss, se);
    if !ok { return UV_EINVAL, d; }
    ghost var cs, out := Chars(s, ss, se).chars, w;
    AsciiLabel(cs);
    assert cs[0..] == cs;
    if todo > 0 {
      d := WritePrefix(dst, d, w);
      out := w + PREFIX;
    }
    d := WriteBasic(s, ss, se, h, dst, d, out, cs);
    if todo == 0 { return h, d; }
    ghost var basic := ToBytes(Basic(cs));
    if h > 0 {
      d := Put(dst, d, '-' as int, out, basic);
      basic := basic + ['-' as int];
    }
    ok, d := Passes(s, ss, se, h, todo, dst, d, cs, out + basic);
    if !ok { return UV_E2BIG, d; }
    Joined(w, cs);
    rc := 0;
  }

  lemma {:induction false} Joined(w: seq<byte>, cs: seq<nat>)
    requires !IsAscii(cs)
    ensures IsAscii(Basic(cs))
    ensures var basic := ToBytes(Basic(cs)) + (if Basic(cs) == [] then [] else ['-' as int]);
      w + LabelText(cs) == w + PREFIX + basic + Digits(Deltas(cs), |Basic(cs)|, 72, true)
  {
    BasicIsAscii(cs);
    var b, dash, ds := ToBytes(Basic(cs)), if Basic(cs) == [] then []
        else ['-' as int], Digits(Deltas(cs), |Basic(cs)|, 72, true);
    assert w + (PREFIX + (b + dash + ds)) == w + PREFIX + (b + dash) + ds;
  }

  // ---------- The whole name ----------

  /** The dots of section 3.1 of RFC 3490. */
  predicate IsDot(c: nat) { c == '.' as int || c == 0x3002 || c == 0xFF0E || c == 0xFF61 }

  /** Splits at the dots; `part` is what has been seen of the first label. */
  function Labels(part: seq<nat>, rest: seq<nat>): (ls: seq<seq<nat>>)
    ensures ls != []
    decreases |rest|
  {
    if rest == [] then [part]
    else if IsDot(rest[0]) then [part] + Labels([], rest[1..])
    else Labels(part + [rest[0]], rest[1..])
  }

  function Join(labels: seq<seq<nat>>): seq<byte>
    requires labels != []
  {
    LabelText(labels[0]) + if |labels| == 1 then [] else ['.' as int] + Join(labels[1..])
  }

  predicate AllFit(labels: seq<seq<nat>>) { labels == [] || (LabelFits(labels[0]) && AllFit(labels[1..])) }

  function NameText(cs: seq<nat>): seq<byte> { Join(Labels([], cs)) }

  /** What is left to write behind `w` at the cursor si, inside a label that starts at `start`. */
  ghost predicate Unfinished(s: seq<byte>, start: nat, si: nat, cs: seq<nat>, w: seq<byte>, part: seq<nat>)
    requires start <= si <= |s|
  {
    match Chars(s, si, |s|)
    case Illegal => true
    case Legal(rest) =>
        NameText(cs) == w + Join(Labels(part, rest)) && (AllFit(Labels([], cs)) <==> AllFit(Labels(part, rest)))
  }

  /** Every label that a dot closes before the first illegal character fits; `part` is what has been
      seen of the first of them. */
  predicate ClosedFit(s: seq<byte>, si: nat, part: seq<nat>)
    requires si <= |s|
    decreases |s| - si
  {
    if si == |s| then true
    else
      var r := Decode1(s, si, |s|);
      if r.code == -1 then true
      else if IsDot(r.code) then LabelFits(part) && ClosedFit(s, r.next, [])
      else ClosedFit(s, r.next, part + [r.code])
  }

  /** The characters between two places of the cursor. */
  function Seen(s: seq<byte>, p: nat, si: nat): Reading
    requires p <= si <= |s|
    decreases si - p
  {
    if p == si then Legal([])
    else
      var r := Decode1(s, p, |s|);
      if r.code == -1 || r.next > si then Illegal
      else match Seen(s, r.next, si)
        case Legal(rest) => Legal([r.code] + rest)
        case Illegal => Illegal
  }

  lemma {:induction false} SeenGrows(s: seq<byte>, p: nat, si: nat, part: seq<nat>)
    requires p <= si < |s| && Seen(s, p, si) == Legal(part) && Decode1(s, si, |s|).code != -1
    ensures var r := Decode1(s, si, |s|); Seen(s, p, r.next) == Legal(part + [r.code])
    decreases si - p
  {
    var r := Decode1(s, si, |s|);
    if p < si {
      SeenGrows(s, Decode1(s, p, |s|).next, si, part[1..]);
      assert part + [r.code] == [part[0]] + (part[1..] + [r.code]);
    } else {
      assert Seen(s, r.next, r.next) == Legal([]);
    }
  }

  /** A label read on its own gives the same characters. */
  lemma {:induction false} SeenAlone(s: seq<byte>, p: nat, si: nat)
    requires p <= si <= |s| && Seen(s, p, si).Legal?
    ensures Chars(s, p, si) == Seen(s, p, si)
    decreases si - p
  {
    if p < si {
      CutBehind(s, p, |s|, si);
      SeenAlone(s, Decode1(s, p, |s|).next, si);
    }
  }

  lemma {:induction false} Regrouped<T>(a: seq<T>, b: seq<T>, c: seq<T>, d: seq<T>)
    ensures a + (b + (c + d)) == a + (b + c) + d
  {
  }

  /** Closing a label: its text and a full stop are written. */
  lemma {:induction false} CloseLabel(w: seq<byte>, part: seq<nat>, c: nat, rest: seq<nat>)
    requires IsDot(c)
    ensures Labels(part, [c] + rest) == [part] + Labels([], rest)
    ensures w + Join(Labels(part, [c] + rest)) == w + (LabelText(part) + ['.' as int]) + Join(Labels([], rest))
    ensures AllFit(Labels(part, [c] + rest)) <==> LabelFits(part) && AllFit(Labels([], rest))
  {
    assert ([c] + rest)[1..] == rest;
    var ls := [part] + Labels([], rest);
    assert ls[1..] == Labels([], rest);
    Regrouped(w, LabelText(part), ['.' as int], Join(ls[1..]));
  }

  lemma {:induction false} StillLabel(s: seq<byte>, start: nat, si: nat, cs: seq<nat>, w: seq<byte>, part: seq<nat>)
    requires start <= si < |s| && Unfinished(s, start, si, cs, w, part)
    requires Decode1(s, si, |s|).code != -1 && !IsDot(Decode1(s, si, |s|).code)
    ensures Unfinished(s, start, Decode1(s, si, |s|).next, cs, w, part + [Decode1(s, si, |s|).code])
  {
    var r := Decode1(s, si, |s|);
    if Chars(s, r.next, |s|).Legal? {
      assert ([r.code] + Chars(s, r.next, |s|).chars)[1..] == Chars(s, r.next, |s|).chars;
    }
  }

  lemma {:induction false} LabelEnds(s: seq<byte>, start: nat, si: nat, cs: seq<nat>, w: seq<byte>, part: seq<nat>)
    requires start <= si < |s| && Unfinished(s, start, si, cs, w, part)
    requires Decode1(s, si, |s|).code != -1 && IsDot(Decode1(s, si, |s|).code)
    ensures var next := Decode1(s, si, |s|).next;
      if LabelFits(part) then Unfinished(s, next, next, cs, w + (LabelText(part) + ['.' as int]), [])
      else Chars(s, si, |s|).Legal? ==> !AllFit(Labels([], cs))
  {
    var r := Decode1(s, si, |s|);
    if Chars(s, r.next, |s|).Legal? { CloseLabel(w, part, r.code, Chars(s, r.next, |s|).chars); }
  }

  /** Lines 330-360: all labels. */
  method WriteName(s: seq<byte>, dst: array<byte>) returns (rc: int, d: nat)
    requires |s| <= INT_MAX
    modifies dst
    ensures match Chars(s, 0, |s|)
      case Illegal => rc == if ClosedFit(s, 0, []) then UV_EINVAL else UV_E2BIG
      case Legal(cs) => if AllFit(Labels([], cs)) then rc >= 0 && Written(dst, d, NameText(cs)) else rc == UV_E2BIG
  {
    ghost var t := Chars(s, 0, |s|);
    ghost var cs, part: seq<nat> := if t.Legal? then t.chars else [], [];
    ghost var w: seq<byte> := [];
    var start: nat, si: nat := 0, 0;
    rc, d := 0, 0;
    assert [] + NameText(cs) == NameText(cs);
    while si < |s|
      invariant start <= si <= |s| && (t.Legal? <==> Chars(s, si, |s|).Legal?)
      invariant Seen(s, start, si) == Legal(part) && (ClosedFit(s, 0, []) <==> ClosedFit(s, si, part))
      invariant Written(dst, d, w) && Unfinished(s, start, si, cs, w, part)
    {
      var st := si;
      var r := Decode1(s, si, |s|);
      if r.code == -1 { return UV_EINVAL, d; }
      si := r.next;
      if !IsDot(r.code) {
        SeenGrows(s, start, st, part);
        StillLabel(s, start, st, cs, w, part);
        part := part + [r.code];
        continue;
      }
      rc, d, w := CloseWith(s, start, st, dst, d, cs, w, part);
      if rc < 0 { return; }
      start, part := si, [];
    }
    rc := 0;
    SeenAlone(s, start, |s|);
    LastLabel(part);
    if start < |s| {
      rc, d := ToAsciiLabel(s, start, |s|, dst, d, w);
    }
  }

  /** Lines 344-352: a label and its full stop. */
  method CloseWith(s: seq<byte>, start: nat, st: nat, dst: array<byte>, d0: nat, ghost cs: seq<nat>,
      ghost w0: seq<byte>, ghost part: seq<nat>)
    returns (rc: int, d: nat, ghost w: seq<byte>)
    requires start <= st < |s| <= INT_MAX && Decode1(s, st, |s|).code != -1 && IsDot(Decode1(s, st, |s|).code)
    requires Seen(s, start, st) == Legal(part) && Written(dst, d0, w0) && Unfinished(s, start, st, cs, w0, part)
    modifies dst
    ensures rc < 0 <==> !LabelFits(part)
    ensures rc < 0 ==> rc == UV_E2BIG && (Chars(s, st, |s|).Legal? ==> !AllFit(Labels([], cs)))
    ensures rc >= 0 ==>
        Written(dst, d, w) && Unfinished(s, Decode1(s, st, |s|).next, Decode1(s, st, |s|).next, cs, w, [])
  {
    SeenAlone(s, start, st);
    rc, d := ToAsciiLabel(s, start, st, dst, d0, w0);
    w := w0 + (LabelText(part) + ['.' as int]);
    LabelEnds(s, start, st, cs, w0, part);
    if rc >= 0 { d := Put(dst, d, '.' as int, w0, LabelText(part)); }
  }

  lemma {:induction false} LastLabel(part: seq<nat>)
    ensures Join(Labels(part, [])) == LabelText(part) && (AllFit(Labels(part, [])) <==> LabelFits(part))
  {
    assert LabelText(part) + [] == LabelText(part);
  }

  /** uv__idna_toascii: exactly when it succeeds, and what it then leaves in the buffer. */
  method ToAscii(s: seq<byte>, dst: array<byte>) returns (n: int)
    requires |s| <= INT_MAX
    modifies dst
    ensures match Chars(s, 0, |s|)
      case Illegal => n == if ClosedFit(s, 0, []) then UV_EINVAL else UV_E2BIG
      case Legal(cs) =>
        if cs == [] then n == UV_EINVAL
        else if !AllFit(Labels([], cs)) then n == UV_E2BIG
        else if |NameText(cs)| + 1 > dst.Length then n == UV_EINVAL
        else n == |NameText(cs)| + 1 && dst[..n] == NameText(cs) + [0]
  {
    if |s| == 0 { return UV_EINVAL; }
    var rc, d := WriteName(s, dst);
    if rc < 0 { return rc; }
    if d >= dst.Length { return UV_EINVAL; }
    dst[d] := 0;
    n := d + 1;
    assert dst[..n] == dst[..d] + [0];
  }

  // ---------- What the bytes mean ----------

  /** Behind the prefix stands the Punycode of the label; a plain label stands for itself. */
  lemma {:induction false} LabelMeaning(cs: seq<nat>)
    ensures IsAscii(cs) ==> LabelText(cs) == cs
    ensures !IsAscii(cs) ==> PREFIX <= LabelText(cs) && Decode(LabelText(cs)[|PREFIX|..]) == Some(cs)
  {
    if !IsAscii(cs) {
      RoundTrip(cs);
      assert LabelText(cs)[|PREFIX|..] == Punycode.Text(cs);
    }
  }

  lemma {:induction false} AsciiParts(a: seq<nat>, c: nat, b: seq<nat>)
    requires IsAscii(a + ([c] + b))
    ensures IsAscii(a) && c < 128 && IsAscii(b)
  {
    var t := a + ([c] + b);
    forall k | 0 <= k < |a| ensures a[k] < 128 { assert t[k] == a[k]; }
    forall k | 0 <= k < |b| ensures b[k] < 128 { assert t[|a| + 1 + k] == b[k]; }
    assert t[|a|] == c;
  }

  lemma {:induction false} AsciiDot(part: seq<nat>, c: nat, more: seq<nat>)
    requires IsAscii(part) && c < 128 && IsDot(c) && Join(Labels([], more)) == more && AllFit(Labels([], more))
    ensures Join(Labels(part, [c] + more)) == part + ([c] + more) && AllFit(Labels(part, [c] + more))
  {
    AsciiLabel(part);
    CloseLabel([], part, c, more);
    assert LabelText(part) == part;
    assert [] + (part + [c]) + more == part + ([c] + more);
  }

  /** An all-ASCII name comes out unchanged, and always fits. */
  lemma {:induction false} AsciiName(part: seq<nat>, rest: seq<nat>)
    requires IsAscii(part + rest)
    ensures Join(Labels(part, rest)) == part + rest && AllFit(Labels(part, rest))
    decreases |rest|
  {
    if rest == [] {
      assert part + rest == part;
      AsciiLabel(part);
      LastLabel(part);
    } else {
      var c, more := rest[0], rest[1..];
      assert rest == [c] + more;
      AsciiParts(part, c, more);
      if IsDot(c) {
        assert [] + more == more;
        AsciiName([], more);
        AsciiDot(part, c, more);
      } else {
        assert part + [c] + more == part + rest;
        AsciiName(part + [c], more);
      }
    }
  }

  // ---------- Where a name is split ----------

  /** None of the four dots of section 3.1 of RFC 3490. */
  predicate NoDot(cs: seq<nat>) {
    forall k | 0 <= k < |cs| :: cs[k] != 0x2E && cs[k] != 0x3002 && cs[k] != 0xFF0E && cs[k] != 0xFF61
  }

  function DotCount(cs: seq<nat>): nat {
    var ms := multiset(cs);
    ms[0x2E] + ms[0x3002] + ms[0xFF0E] + ms[0xFF61]
  }

  lemma {:induction false} OneLabel(part: seq<nat>, a: seq<nat>)
    requires NoDot(a)
    ensures Labels(part, a) == [part + a]
    decreases |a|
  {
    if a == [] {
      assert part + a == part;
    } else {
      assert part + [a[0]] + a[1..] == part + a;
      OneLabel(part + [a[0]], a[1..]);
    }
  }

  lemma {:induction false} FirstLabel(part: seq<nat>, a: seq<nat>, c: nat, rest: seq<nat>)
    requires NoDot(a) && (c == 0x2E || c == 0x3002 || c == 0xFF0E || c == 0xFF61)
    ensures Labels(part, a + [c] + rest) == [part + a] + Labels([], rest)
    decreases |a|
  {
    var cs := a + [c] + rest;
    if a == [] {
      assert part + a == part && cs[0] == c && cs[1..] == rest;
    } else {
      assert cs[0] == a[0] && cs[1..] == a[1..] + [c] + rest && part + [a[0]] + a[1..] == part + a;
      FirstLabel(part + [a[0]], a[1..], c, rest);
    }
  }

  /** A name is split at its first dot, whichever of the four it is: the first label's text, a full stop, and the
      text of the rest.  It fits if both parts do. */
  lemma {:induction false} SplitsAtDot(a: seq<nat>, c: nat, rest: seq<nat>)
    requires NoDot(a) && (c == 0x2E || c == 0x3002 || c == 0xFF0E || c == 0xFF61)
    ensures NameText(a + [c] + rest) == LabelText(a) + [0x2E] + NameText(rest)
    ensures AllFit(Labels([], a + [c] + rest)) <==> LabelFits(a) && AllFit(Labels([], rest))
  {
    FirstLabel([], a, c, rest);
    assert [] + a == a;
    var ls := [a] + Labels([], rest);
    assert ls[1..] == Labels([], rest);
    assert LabelText(a) + ([0x2E] + Join(ls[1..])) == LabelText(a) + [0x2E] + Join(ls[1..]);
  }

  /** A name without a dot is one label. */
  lemma {:induction false} NoSplit(a: seq<nat>)
    requires NoDot(a)
    ensures NameText(a) == LabelText(a) && (AllFit(Labels([], a)) <==> LabelFits(a))
  {
    OneLabel([], a);
    assert [] + a == a;
    LastLabel(a);
  }

  /** There is one label more than there are dots. */
  lemma {:induction false} LabelCount(part: seq<nat>, rest: seq<nat>)
    ensures |Labels(part, rest)| == 1 + DotCount(rest)
    decreases |rest|
  {
    if rest != [] {
      assert rest == [rest[0]] + rest[1..];
      LabelCount(if IsDot(rest[0]) then [] else part + [rest[0]], rest[1..]);
    }
  }

  /** For an input whose first illegal character stands at p, which of the two errors it gets: whether the labels
      closed before that place all fit. */
  lemma {:induction false} ClosedLabels(s: seq<byte>, si: nat, p: nat, part: seq<nat>, cs: seq<nat>)
    requires si <= p < |s| && Seen(s, si, p) == Legal(cs) && Decode1(s, p, |s|).code == -1
    ensures var ls := Labels(part, cs); ClosedFit(s, si, part) <==> AllFit(ls[..|ls| - 1])
    decreases p - si
  {
    if si < p {
      var r := Decode1(s, si, |s|);
      var rest := cs[1..];
      if IsDot(r.code) {
        ClosedLabels(s, r.next, p, [], rest);
        var ls := Labels([], rest);
        assert ([part] + ls)[..|ls|] == [part] + ls[..|ls| - 1];
        assert ([part] + ls[..|ls| - 1])[1..] == ls[..|ls| - 1];
      } else {
        ClosedLabels(s, r.next, p, part + [r.code], rest);
      }
    }
  }

  // ---------- Known answers ----------

  /** An ideographic full stop, and a word with a tilde. */
  lemma {:induction false} KnownName(a: seq<nat>, b: seq<nat>)
    requires |a| == 6 && a[2] == 0xF1 && a[..2] + a[3..] == Ascii("maana") && b == Ascii("com")
    ensures AllFit(Labels([], a + [0x3002] + b)) && NameText(a + [0x3002] + b) == Ascii("xn--maana-pta.com")
  {
    KnownLabel(a);
    AsciiLabel(b);
    SplitsAtDot(a, 0x3002, b);
    NoSplit(b);
    assert LabelText(b) == b;
    KnownDot();
  }

  lemma {:induction false} KnownDot()
    ensures Ascii("xn--maana-pta") + [0x2E] + Ascii("com") == Ascii("xn--maana-pta.com")
  {
  }

  lemma {:induction false} KnownLabel(a: seq<nat>)
    requires |a| == 6 && a[2] == 0xF1 && a[..2] + a[3..] == Ascii("maana")
    ensures LabelFits(a) && LabelText(a) == Ascii("xn--maana-pta") && NoDot(a)
  {
    forall k | 0 <= k < 6 && k != 2 ensures 'a' as int <= a[k] <= 'z' as int {
      assert a[k] == (a[..2] + a[3..])[if k < 2 then k else k - 1];
    }
    KnownDelta(a);
    KnownText(a);
    assert Fit([680]);
    KnownPrefix();
  }

  lemma {:induction false} KnownPrefix()
    ensures PREFIX + Ascii("maana-pta") == Ascii("xn--maana-pta")
  {
    assert PREFIX + Ascii("maana-pta") == Ascii("xn--maana-pta");
  }
}
