/** RFC 3492 (Punycode).  `Adapt`, `ReadInt` and `Decode` follow sections 6.1 and 6.2 and do not
    look at libuv's encoder at all; `Text` says, in exact arithmetic, what that encoder emits.
    `RoundTrip` connects the two. */
module Punycode {
  import opened Arith
  import opened Common
  import opened Utf8

  // ---------- Section 6.1: bias adaptation ----------

  function Shrink(delta: nat, k: nat): nat
    decreases delta
  {
    if delta > 455 then Shrink(delta / 35, k + 36) else k + 36 * delta / (delta + 38)
  }

  function Adapt(delta: nat, points: nat, first: bool): nat
    requires points > 0
  {
    var d := if first then delta / 700 else delta / 2;
    Division(d, points);
    Shrink(d + d / points, 0)
  }

  // ---------- Section 6.2: decoding ----------

  function Threshold(k: nat, bias: nat): (t: nat)
    ensures 1 <= t <= 26
  {
    if k <= bias + 1 then 1 else if k >= bias + 26 then 26 else k - bias
  }

  /** The value of a basic code point used as a digit; letters count in either case. */
  function DigitValue(b: byte): Option<nat> {
    if 'a' as int <= b <= 'z' as int then Some(b - 'a' as int)
    else if 'A' as int <= b <= 'Z' as int then Some(b - 'A' as int)
    else if '0' as int <= b <= '9' as int then Some(b - '0' as int + 26)
    else None
  }

  datatype Read = Read(i: nat, rest: seq<byte>) | Bad

  /** Reads one generalized variable-length integer and adds it to i. */
  function ReadInt(text: seq<byte>, k: nat, w: nat, bias: nat, i: nat): (r: Read)
    ensures r.Read? ==> |r.rest| < |text| && r.i >= i
  {
    if text == [] then Bad
    else match DigitValue(text[0])
      case None => Bad
      case Some(digit) =>
        var t := Threshold(k, bias);
        Product(digit, w);
        if digit < t then Read(i + digit * w, text[1..])
            else ReadInt(text[1..], k + 36, w * (36 - t), bias, i + digit * w)
  }

  /** The main loop: every integer read says where and which code point to insert next. */
  function Insertions(out: seq<nat>, n: nat, i: nat, bias: nat, text: seq<byte>): Option<seq<nat>>
    decreases |text|
  {
    if text == [] then Some(out)
    else match ReadInt(text, 36, 1, bias, i)
      case Bad => None
      case Read(i', rest) =>
        var len := |out| + 1;
        Division(i', len);
        Insertions(InsertAt(out, i' % len, n + i' / len), n + i' / len, i' % len + 1, Adapt(i' - i, len, i == 0), rest)
  }

  function InsertAt(out: seq<nat>, at: nat, c: nat): seq<nat>
    requires at <= |out|
  {
    out[..at] + [c] + out[at..]
  }

  /** The last delimiter, if there is one. */
  function LastDash(text: seq<byte>): (r: int)
    ensures -1 <= r < |text|
  {
    if text == [] then -1 else if text[|text| - 1] == '-' as int then |text| - 1 else LastDash(text[..|text| - 1])
  }

  function Decode(text: seq<byte>): Option<seq<nat>> {
    var b := LastDash(text);
    var basic := text[..if b < 0 then 0 else b];
    if exists k | 0 <= k < |basic| :: basic[k] >= 128 then None
    else Insertions(basic, 128, 0, 72, text[if b > 0 then b + 1 else 0..])
  }

  // ---------- What the encoder emits ----------

  function Digit(v: nat): (b: byte)
    requires v < 36
    ensures DigitValue(b) == Some(v) && b != '-' as int
  {
    if v < 26 then 'a' as int + v else '0' as int + (v - 26)
  }

  function Varint(q: nat, k: nat, bias: nat): (ds: seq<byte>)
    ensures forall j | 0 <= j < |ds| :: ds[j] != '-' as int
    ensures ds != []
    decreases q
  {
    var t := Threshold(k, bias);
    if q < t then [Digit(q)]
    else
      Quotient(q - t, 36 - t);
      [Digit(t + (q - t) % (36 - t))] + Varint((q - t) / (36 - t), k + 36, bias)
  }

  /** The deltas of section 6.3, each with the number of code points handled before it. */
  function Digits(deltas: seq<nat>, h: nat, bias: nat, first: bool): (text: seq<byte>)
    ensures forall j | 0 <= j < |text| :: text[j] != '-' as int
  {
    if deltas == [] then []
    else Varint(deltas[0], 36, bias) + Digits(deltas[1..], h + 1, Adapt(deltas[0], h + 1, first), false)
  }

  /** The least element that is at least n. */
  function Least(cs: seq<nat>, n: nat): Option<nat> {
    if cs == [] then None
    else
      var c, rest := cs[|cs| - 1], Least(cs[..|cs| - 1], n);
      if c >= n && (rest.None? || c < rest.value) then Some(c) else rest
  }

  lemma {:induction false} LeastIs(cs: seq<nat>, n: nat)
    ensures match Least(cs, n)
      case None => forall k | 0 <= k < |cs| :: cs[k] < n
      case Some(m) => n <= m <= Max(cs) && m in cs && forall k | 0 <= k < |cs| :: cs[k] < n || cs[k] >= m
  {
    if cs != [] { LeastIs(cs[..|cs| - 1], n); }
  }

  function Max(cs: seq<nat>): nat {
    if cs == [] then 0 else
      var c, rest := cs[|cs| - 1], Max(cs[..|cs| - 1]);
      if c > rest then c else rest
  }

  /** Start of a pass: on to the next code point to insert. */
  function Pass(cs: seq<nat>, n: nat, h: nat, delta: nat): seq<nat>
    decreases if n <= Max(cs) then Max(cs) - n + 1 else 0, |cs| + 1
  {
    LeastIs(cs, n);
    match Least(cs, n)
    case None => []
    case Some(m) =>
      Product(m - n, h + 1);
      Scan(cs, m, 0, h, delta + (m - n) * (h + 1))
  }

  /** Within the pass for n, about to look at cs[j]. */
  function Scan(cs: seq<nat>, n: nat, j: nat, h: nat, delta: nat): seq<nat>
    requires j <= |cs| && n <= Max(cs)
    decreases Max(cs) - n + 1, |cs| - j
  {
    if j == |cs| then Pass(cs, n + 1, h, delta + 1)
    else if cs[j] < n then Scan(cs, n, j + 1, h, delta + 1)
    else if cs[j] > n then Scan(cs, n, j + 1, h, delta)
    else [delta] + Scan(cs, n, j + 1, h + 1, 0)
  }

  /** The code points below n, and those equal to n among the first j. */
  function Done(cs: seq<nat>, n: nat, j: nat): (out: seq<nat>)
    ensures |out| <= |cs|
  {
    if cs == [] then []
    else
      var last := |cs| - 1;
      Done(cs[..last], n, j) + if cs[last] < n || (cs[last] == n && last < j) then [cs[last]] else []
  }

  function Basic(cs: seq<nat>): seq<nat> { Done(cs, 128, 0) }

  function Deltas(cs: seq<nat>): seq<nat> { Pass(cs, 128, |Basic(cs)|, 0) }

  predicate IsAscii(cs: seq<nat>) { forall k | 0 <= k < |cs| :: cs[k] < 128 }

  lemma {:induction false} BasicIsAscii(cs: seq<nat>)
    ensures IsAscii(Basic(cs))
  {
    if cs != [] { BasicIsAscii(cs[..|cs| - 1]); }
  }

  /** The label's encoding behind "xn--". */
  function Text(cs: seq<nat>): seq<byte> {
    BasicIsAscii(cs);
    var basic := Basic(cs);
    ToBytes(basic) + (if basic == [] then [] else ['-' as int]) + Digits(Deltas(cs), |basic|, 72, true)
  }

  function ToBytes(cs: seq<nat>): (bs: seq<byte>)
    requires IsAscii(cs)
    ensures |bs| == |cs| && forall k | 0 <= k < |cs| :: bs[k] == cs[k]
  {
    seq(|cs|, k requires 0 <= k < |cs| => cs[k])
  }

  // ---------- The round trip ----------

  /** Reading back one digit that is not the last. */
  lemma {:induction false} ReadDigit(digit: nat, ds: seq<byte>, k: nat, w: nat, bias: nat, i: nat)
    requires Threshold(k, bias) <= digit < 36
    ensures digit * w >= 0 && w * (36 - Threshold(k, bias)) >= 0
    ensures ReadInt([Digit(digit)] + ds, k, w, bias, i) ==
        ReadInt(ds, k + 36, w * (36 - Threshold(k, bias)), bias, i + digit * w)
  {
    Product(digit, w);
    Product(w, 36 - Threshold(k, bias));
    assert ([Digit(digit)] + ds)[1..] == ds;
  }

  lemma {:induction false} Regroup(z: nat, y: nat, w: nat, digit: nat, q: nat)
    requires q == z * y + digit
    ensures w * y >= 0 && digit * w >= 0 && digit * w + z * (w * y) == q * w
  {
    Product(w, y);
    Product(digit, w);
    assert z * (w * y) == z * y * w;
  }

  lemma {:induction false} VarintStep(q: nat, k: nat, bias: nat) returns (z: nat, digit: nat)
    requires q >= Threshold(k, bias)
    ensures Threshold(k, bias) <= digit < 36 && z < q && q == z * (36 - Threshold(k, bias)) + digit
    ensures Varint(q, k, bias) == [Digit(digit)] + Varint(z, k + 36, bias)
  {
    var t := Threshold(k, bias);
    Quotient(q - t, 36 - t);
    z, digit := (q - t) / (36 - t), t + (q - t) % (36 - t);
  }

  /** Reading back a digit and whatever integer follows. */
  lemma {:induction false} ReadOn(z: nat, digit: nat, more: seq<byte>, k: nat, w: nat, bias: nat, i: nat,
      rest: seq<byte>, wy: nat, dw: nat, total: nat)
    requires Threshold(k, bias) <= digit < 36 && wy == w * (36 - Threshold(k, bias)) && dw == digit * w
        && dw + z * wy == total
    requires z * wy >= 0 && ReadInt(more + rest, k + 36, wy, bias, i + dw) == Read(i + dw + z * wy, rest)
    ensures ReadInt([Digit(digit)] + more + rest, k, w, bias, i) == Read(i + total, rest)
  {
    ReadDigit(digit, more + rest, k, w, bias, i);
    assert [Digit(digit)] + more + rest == [Digit(digit)] + (more + rest);
  }

  /** Reading back one integer. */
  lemma {:induction false} ReadVarint(q: nat, k: nat, w: nat, bias: nat, i: nat, rest: seq<byte>)
    ensures q * w >= 0 && ReadInt(Varint(q, k, bias) + rest, k, w, bias, i) == Read(i + q * w, rest)
    decreases q
  {
    Product(q, w);
    if q < Threshold(k, bias) {
      assert ([Digit(q)] + rest)[1..] == rest;
    } else {
      var z, digit := VarintStep(q, k, bias);
      Regroup(z, 36 - Threshold(k, bias), w, digit, q);
      var wy: nat, dw: nat := w * (36 - Threshold(k, bias)), digit * w;
      ReadVarint(z, k + 36, wy, bias, i + dw, rest);
      ReadOn(z, digit, Varint(z, k + 36, bias), k, w, bias, i, rest, wy, dw, q * w);
    }
  }

  /** How much of Done lies in the first j positions: where code point cs[j] belongs. */
  function Before(cs: seq<nat>, n: nat, j: nat): nat
    requires j <= |cs|
  {
    |Done(cs[..j], n, j)|
  }

  lemma {:induction false} DonePrefix(cs: seq<nat>, n: nat, j: nat, k: nat)
    requires j <= |cs|
    ensures Done(cs[..j], n, k) <= Done(cs, n, k)
  {
    if j < |cs| {
      DonePrefix(cs[..|cs| - 1], n, j, k);
      assert cs[..|cs| - 1][..j] == cs[..j];
    } else {
      assert cs[..j] == cs;
    }
  }

  lemma {:induction false} Insert(cs: seq<nat>, n: nat, j: nat)
    requires j < |cs| && cs[j] == n
    ensures Before(cs, n, j) <= |Done(cs, n, j)| && Done(cs, n, j + 1) == InsertAt(Done(cs, n, j), Before(cs, n, j), n)
    ensures Before(cs, n, j + 1) == Before(cs, n, j) + 1
  {
    var last := |cs| - 1;
    var front := cs[..last];
    assert front[..j] == cs[..j];
    if j < last {
      Insert(front, n, j);
      assert front[..j + 1] == cs[..j + 1];
      InsertBehind(Done(front, n, j), Before(cs, n, j), n, if cs[last] < n then [cs[last]] else []);
    } else {
      SameUpTo(front, n, j, j + 1);
      assert cs[..j + 1] == cs && front == cs[..j];
      assert Done(front, n, j) + [] == Done(front, n, j);
      assert InsertAt(Done(front, n, j), |Done(front, n, j)|, n) == Done(front, n, j) + [n];
    }
  }

  lemma {:induction false} InsertBehind(out: seq<nat>, at: nat, c: nat, more: seq<nat>)
    requires at <= |out|
    ensures InsertAt(out + more, at, c) == InsertAt(out, at, c) + more
  {
    assert (out + more)[..at] == out[..at] && (out + more)[at..] == out[at..] + more;
  }

  /** Positions at or past the end make no difference. */
  lemma {:induction false} SameUpTo(cs: seq<nat>, n: nat, j: nat, k: nat)
    requires |cs| <= j && |cs| <= k
    ensures Done(cs, n, j) == Done(cs, n, k)
  {
    if cs != [] { SameUpTo(cs[..|cs| - 1], n, j, k); }
  }

  /** Passing over a code point other than n. */
  lemma {:induction false} Skip(cs: seq<nat>, n: nat, j: nat)
    requires j < |cs| && cs[j] != n
    ensures Before(cs, n, j + 1) == Before(cs, n, j) + if cs[j] < n then 1 else 0
    ensures Done(cs, n, j + 1) == Done(cs, n, j)
  {
    assert cs[..j + 1][..j] == cs[..j];
    SameUpTo(cs[..j], n, j, j + 1);
    SkipDone(cs, n, j);
  }

  lemma {:induction false} SkipDone(cs: seq<nat>, n: nat, j: nat)
    requires j < |cs| ==> cs[j] != n
    ensures Done(cs, n, j + 1) == Done(cs, n, j)
  {
    if cs != [] { SkipDone(cs[..|cs| - 1], n, j); }
  }

  /** Between passes: nothing has value in n..m-1, so what is done up to n is done up to m. */
  lemma {:induction false} NextPass(cs: seq<nat>, n: nat, m: nat, j: nat)
    requires n <= m && forall k | 0 <= k < |cs| :: cs[k] < n || cs[k] >= m
    ensures n < m || j == 0 ==> Done(cs, n, j) == Done(cs, m, 0)
  {
    if cs != [] { NextPass(cs[..|cs| - 1], n, m, j); }
  }

  lemma {:induction false} PassOver(cs: seq<nat>, n: nat)
    ensures Done(cs, n, |cs|) == Done(cs, n + 1, 0)
    ensures Before(cs, n, |cs|) == |Done(cs, n, |cs|)|
  {
    assert cs[..|cs|] == cs;
    PassOverTo(cs, n, |cs|);
  }

  lemma {:induction false} PassOverTo(cs: seq<nat>, n: nat, j: nat)
    requires |cs| <= j
    ensures Done(cs, n, j) == Done(cs, n + 1, 0)
  {
    if cs != [] { PassOverTo(cs[..|cs| - 1], n, j); }
  }

  lemma {:induction false} AllDone(cs: seq<nat>, n: nat, j: nat)
    requires forall k | 0 <= k < |cs| :: cs[k] < n
    ensures Done(cs, n, j) == cs
  {
    if cs != [] { AllDone(cs[..|cs| - 1], n, j); }
  }

  /** What ties the encoder's delta to the decoder's n and i at every step. */
  predicate Synchronized(cs: seq<nat>, n: nat, j: nat, delta: nat, nd: nat, i: nat, h: nat)
    requires j <= |cs|
  {
    h == |Done(cs, n, j)| && nd <= n && delta + i == (n - nd) * (h + 1) + Before(cs, n, j)
  }

  /** What a list of deltas stands for, whatever way the integers are written. */
  function Rebuild(deltas: seq<nat>, out: seq<nat>, n: nat, i: nat): seq<nat> {
    if deltas == [] then out
    else
      var i', len := i + deltas[0], |out| + 1;
      Division(i', len);
      Rebuild(deltas[1..], InsertAt(out, i' % len, n + i' / len), n + i' / len, i' % len + 1)
  }

  lemma {:induction false} InsertNext(out: seq<nat>, n: nat, i: nat, bias: nat, text: seq<byte>, i': nat,
      rest: seq<byte>, at: nat, n': nat)
    requires text != [] && ReadInt(text, 36, 1, bias, i) == Read(i', rest)
    requires at == i' % (|out| + 1) <= |out| && n' == n + i' / (|out| + 1)
    ensures i' >= i && Insertions(out, n, i, bias, text) ==
        Insertions(InsertAt(out, at, n'), n', at + 1, Adapt(i' - i, |out| + 1, i == 0), rest)
  {
  }

  lemma {:induction false} ReadDelta(delta: nat, out: seq<nat>, n: nat, i: nat, bias: nat, rest: seq<byte>, at: nat,
      n': nat)
    requires at == (i + delta) % (|out| + 1) <= |out| && n' == n + (i + delta) / (|out| + 1)
    ensures Insertions(out, n, i, bias, Varint(delta, 36, bias) + rest) ==
        Insertions(InsertAt(out, at, n'), n', at + 1, Adapt(delta, |out| + 1, i == 0), rest)
  {
    ReadVarint(delta, 36, 1, bias, i, rest);
    InsertNext(out, n, i, bias, Varint(delta, 36, bias) + rest, i + delta, rest, at, n');
  }

  lemma {:induction false} RebuildStep(delta: nat, more: seq<nat>, out: seq<nat>, n: nat, i: nat, at: nat, n': nat)
    requires at == (i + delta) % (|out| + 1) <= |out| && n' == n + (i + delta) / (|out| + 1)
    ensures Rebuild([delta] + more, out, n, i) == Rebuild(more, InsertAt(out, at, n'), n', at + 1)
  {
    assert ([delta] + more)[1..] == more;
  }

  lemma {:induction false} DigitsStep(delta: nat, more: seq<nat>, h: nat, bias: nat, first: bool)
    ensures Digits([delta] + more, h, bias, first) ==
        Varint(delta, 36, bias) + Digits(more, h + 1, Adapt(delta, h + 1, first), false)
  {
    assert ([delta] + more)[1..] == more;
  }

  lemma {:induction false} ReadNext(delta: nat, more: seq<nat>, out: seq<nat>, n: nat, i: nat, bias: nat, at: nat,
      n': nat, bias': nat)
    requires at == (i + delta) % (|out| + 1) <= |out| && n' == n + (i + delta) / (|out| + 1)
        && bias' == Adapt(delta, |out| + 1, i == 0)
    ensures Insertions(out, n, i, bias, Digits([delta] + more, |out|, bias, i == 0)) ==
        Insertions(InsertAt(out, at, n'), n', at + 1, bias', Digits(more, |out| + 1, bias', false))
  {
    DigitsStep(delta, more, |out|, bias, i == 0);
    ReadDelta(delta, out, n, i, bias, Digits(more, |out| + 1, bias', false), at, n');
  }

  lemma {:induction false} Place(x: nat, len: nat) returns (at: nat, up: nat)
    requires len > 0
    ensures at == x % len < len && up == x / len
  {
    Division(x, len);
    at, up := x % len, x / len;
  }

  /** One delta is read and rebuilt in the same way. */
  lemma {:induction false} DeltaStep(delta: nat, more: seq<nat>, out: seq<nat>, n: nat, i: nat, bias: nat)
      returns (out': seq<nat>, n': nat, i': nat, bias': nat)
    ensures i' > 0 && Rebuild([delta] + more, out, n, i) == Rebuild(more, out', n', i')
    ensures Insertions(out, n, i, bias, Digits([delta] + more, |out|, bias, i == 0)) ==
        Insertions(out', n', i', bias', Digits(more, |out'|, bias', false))
  {
    var at, up := Place(i + delta, |out| + 1);
    n', i', bias' := n + up, at + 1, Adapt(delta, |out| + 1, i == 0);
    out' := InsertAt(out, at, n');
    RebuildStep(delta, more, out, n, i, at, n');
    ReadNext(delta, more, out, n, i, bias, at, n', bias');
    assert |out'| == |out| + 1;
  }

  /** Reading digits is rebuilding: encoder and decoder adapt the bias in step. */
  lemma {:induction false} ReadDigits(deltas: seq<nat>, out: seq<nat>, n: nat, i: nat, bias: nat)
    ensures Insertions(out, n, i, bias, Digits(deltas, |out|, bias, i == 0)) == Some(Rebuild(deltas, out, n, i))
  {
    if deltas != [] {
      var delta, more := deltas[0], deltas[1..];
      assert deltas == [delta] + more;
      var out', n', i', bias' := DeltaStep(delta, more, out, n, i, bias);
      ReadDigits(more, out', n', i', bias');
    }
  }

  lemma {:induction false} RebuildsPass(cs: seq<nat>, n: nat, delta: nat, nd: nat, i: nat, h: nat)
    requires Synchronized(cs, n, 0, delta, nd, i, h)
    ensures Rebuild(Pass(cs, n, h, delta), Done(cs, n, 0), nd, i) == cs
    decreases if n <= Max(cs) then Max(cs) - n + 1 else 0, |cs| + 1
  {
    LeastIs(cs, n);
    match Least(cs, n)
    case None => AllDone(cs, n, 0);
    case Some(m) =>
      NextPass(cs, n, m, 0);
      assert cs[..0] == [];
      Product(m - n, h + 1);
      assert (m - nd) * (h + 1) == (m - n) * (h + 1) + (n - nd) * (h + 1);
      RebuildsScan(cs, m, 0, delta + (m - n) * (h + 1), nd, i, h);
  }

  lemma {:induction false} RebuildsScan(cs: seq<nat>, n: nat, j: nat, delta: nat, nd: nat, i: nat, h: nat)
    requires j <= |cs| && n <= Max(cs) && Synchronized(cs, n, j, delta, nd, i, h)
    ensures Rebuild(Scan(cs, n, j, h, delta), Done(cs, n, j), nd, i) == cs
    decreases Max(cs) - n + 1, |cs| - j
  {
    if j == |cs| {
      NextStart(cs, n, delta, nd, i, h);
      RebuildsPass(cs, n + 1, delta + 1, nd, i, h);
    } else if cs[j] != n {
      Skip(cs, n, j);
      RebuildsScan(cs, n, j + 1, if cs[j] < n then delta + 1 else delta, nd, i, h);
    } else {
      var at := Before(cs, n, j);
      Insert(cs, n, j);
      assert (n - n) * (h + 2) == 0;
      RebuildsScan(cs, n, j + 1, 0, n, at + 1, h + 1);
      Inserts(delta, Scan(cs, n, j + 1, h + 1, 0), n, at, nd, i, h, Done(cs, n, j));
    }
  }

  lemma {:induction false} NextStart(cs: seq<nat>, n: nat, delta: nat, nd: nat, i: nat, h: nat)
    requires Synchronized(cs, n, |cs|, delta, nd, i, h)
    ensures Synchronized(cs, n + 1, 0, delta + 1, nd, i, h) && Done(cs, n, |cs|) == Done(cs, n + 1, 0)
  {
    PassOver(cs, n);
    assert cs[..0] == [];
    assert (n + 1 - nd) * (h + 1) == (n - nd) * (h + 1) + (h + 1);
  }

  /** One delta is one code point inserted at the right place. */
  lemma {:induction false} Inserts(delta: nat, deltas: seq<nat>, n: nat, at: nat, nd: nat, i: nat, h: nat,
      out: seq<nat>)
    requires at <= |out| == h && nd <= n && delta + i == (n - nd) * (h + 1) + at
    ensures Rebuild([delta] + deltas, out, nd, i) == Rebuild(deltas, InsertAt(out, at, n), n, at + 1)
  {
    assert ([delta] + deltas)[1..] == deltas;
    DivMod(n - nd, h + 1, at);
  }

  lemma {:induction false} LastDashIs(pre: seq<byte>, digits: seq<byte>)
    requires forall j | 0 <= j < |digits| :: digits[j] != '-' as int
    ensures LastDash(pre + ['-' as int] + digits) == |pre|
    ensures LastDash(digits) == -1
  {
    if digits != [] {
      var front := digits[..|digits| - 1];
      LastDashIs(pre, front);
      var text := pre + ['-' as int] + digits;
      assert text[..|text| - 1] == pre + ['-' as int] + front;
    }
  }

  lemma {:induction false} DecodeParts(basic: seq<nat>, digits: seq<byte>)
    requires IsAscii(basic) && forall j | 0 <= j < |digits| :: digits[j] != '-' as int
    ensures Decode(ToBytes(basic) + (if basic == [] then [] else ['-' as int]) + digits) ==
        Insertions(basic, 128, 0, 72, digits)
  {
    var bs := ToBytes(basic);
    LastDashIs(bs, digits);
    if basic == [] {
      assert bs + [] + digits == digits && digits[0..] == digits && digits[..0] == basic;
    } else {
      var text := bs + ['-' as int] + digits;
      assert text[..|bs|] == bs && text[|bs| + 1..] == digits && bs == basic;
    }
  }

  /** Decoding by RFC 3492 gives back exactly the label. */
  lemma {:induction false} RoundTrip(cs: seq<nat>)
    ensures Decode(Text(cs)) == Some(cs)
  {
    var basic := Basic(cs);
    BasicIsAscii(cs);
    assert cs[..0] == [];
    RebuildsPass(cs, 128, 0, 128, 0, |basic|);
    ReadDigits(Deltas(cs), basic, 128, 0, 72);
    DecodeParts(basic, Digits(Deltas(cs), |basic|, 72, true));
  }

  // ---------- Known answers ----------

  /** The bytes of a text. */
  function Ascii(s: string): (bs: seq<byte>)
    requires forall k | 0 <= k < |s| :: s[k] < 128 as char
    ensures |bs| == |s| && forall k | 0 <= k < |s| :: bs[k] == s[k] as int
  {
    seq(|s|, k requires 0 <= k < |s| => s[k] as int)
  }

  lemma {:induction false} VarintHead(q: nat, k: nat, bias: nat, t: nat, digit: nat, z: nat)
    requires t == Threshold(k, bias) <= q && digit == t + (q - t) % (36 - t) && z == (q - t) / (36 - t) && digit < 36
    ensures Varint(q, k, bias) == [Digit(digit)] + Varint(z, k + 36, bias)
  {
  }

  lemma {:induction false} ThreeDigits(q: nat, bias: nat, t: nat, u: nat, x: nat, y: nat, z: nat, r: nat)
    requires t == Threshold(36, bias) <= q && x == t + (q - t) % (36 - t) < 36 && r == (q - t) / (36 - t)
    requires u == Threshold(72, bias) <= r && y == u + (r - u) % (36 - u) < 36 && z == (r - u) / (36 - u)
    requires z < Threshold(108, bias)
    ensures Varint(q, 36, bias) == [Digit(x), Digit(y), Digit(z)]
  {
    VarintHead(q, 36, bias, t, x, r);
    VarintHead(r, 72, bias, u, y, z);
    assert Varint(z, 108, bias) == [Digit(z)];
  }

  lemma {:induction false} KnownBasic(a: seq<nat>)
    requires |a| == 6 && a[2] == 0xF1 && forall k | 0 <= k < 6 && k != 2 :: a[k] < 128
    ensures Basic(a) == [a[0], a[1], a[3], a[4], a[5]] && Least(a, 128) == Some(0xF1) && Max(a) == 0xF1
    ensures Least(a, 0xF2) == None
  {
    var a1, a2, a3, a4, a5 := a[..1], a[..2], a[..3], a[..4], a[..5];
    assert a5[..4] == a4 && a4[..3] == a3 && a3[..2] == a2 && a2[..1] == a1 && a1[..0] == [];
    assert Basic(a1) == [a[0]] && Basic(a2) == [a[0], a[1]] && Basic(a3) == Basic(a2) + [];
    assert Basic(a4) == [a[0], a[1], a[3]] && Basic(a5) == [a[0], a[1], a[3], a[4]];
    LeastIs(a, 128);
    LeastIs(a, 0xF2);
    assert Max(a1) == a[0] && Max(a2) < 128 && Max(a3) == 0xF1 && Max(a4) == 0xF1 && Max(a5) == 0xF1;
  }

  lemma {:induction false} KnownDelta(a: seq<nat>)
    requires |a| == 6 && a[2] == 0xF1 && forall k | 0 <= k < 6 && k != 2 :: a[k] < 128
    ensures Deltas(a) == [680]
  {
    KnownBasic(a);
    assert Pass(a, 128, 5, 0) == Scan(a, 0xF1, 0, 5, 678);
    assert Scan(a, 0xF1, 0, 5, 678) == Scan(a, 0xF1, 1, 5, 679) == Scan(a, 0xF1, 2, 5, 680);
    assert Scan(a, 0xF1, 3, 6, 0) == Scan(a, 0xF1, 4, 6, 1) == Scan(a, 0xF1, 5, 6, 2) == Scan(a, 0xF1, 6, 6, 3);
    assert Scan(a, 0xF1, 6, 6, 3) == Pass(a, 0xF2, 6, 4) == [];
    assert Scan(a, 0xF1, 2, 5, 680) == [680] + [];
  }

  /** The Spanish word with a tilde. */
  lemma {:induction false} KnownText(a: seq<nat>)
    requires |a| == 6 && a[2] == 0xF1 && a[..2] + a[3..] == Ascii("maana")
    ensures Text(a) == Ascii("maana-pta")
  {
    forall k | 0 <= k < 6 && k != 2 ensures a[k] < 128 { assert a[k] == (a[..2] + a[3..])[if k < 2 then k else k - 1]; }
    KnownDelta(a);
    KnownBasic(a);
    ThreeDigits(680, 72, 1, 1, 15, 19, 0, 19);
    assert Digits([680], 5, 72, true) == Varint(680, 36, 72) + [];
    assert Digits([680], 5, 72, true) == Ascii("pta");
    assert Basic(a) == Ascii("maana");
    KnownJoin(a);
  }

  lemma {:induction false} KnownJoin(a: seq<nat>)
    requires Basic(a) == Ascii("maana") && Digits(Deltas(a), 5, 72, true) == Ascii("pta")
    ensures Text(a) == Ascii("maana-pta")
  {
    BasicIsAscii(a);
    assert ToBytes(Basic(a)) == Ascii("maana");
  }

  lemma {:induction false} ThreeDeltas(x: nat, y: nat, z: nat, h: nat, b0: nat, b1: nat, b2: nat)
    requires b1 == Adapt(x, h + 1, true) && b2 == Adapt(y, h + 2, false)
    ensures Digits([x, y, z], h, b0, true) == Varint(x, 36, b0) + (Varint(y, 36, b1) + Varint(z, 36, b2))
  {
    DigitsStep(x, [y, z], h, b0, true);
    DigitsStep(y, [z], h + 1, b1, false);
    DigitsStep(z, [], h + 2, b2, false);
    assert [x] + [y, z] == [x, y, z] && [y] + [z] == [y, z] && [z] + [] == [z];
    assert Varint(z, 36, b2) + [] == Varint(z, 36, b2);
  }

  /** Three deltas, read with three different biases. */
  lemma {:induction false} KnownDigits()
    ensures Digits([17713, 2239, 178163], 1, 72, true) == Ascii("dqo34kn65z")
  {
    KnownBias();
    ThreeDeltas(17713, 2239, 178163, 1, 72, 17, 54);
    KnownFirst();
    KnownSecond();
    KnownLast();
  }

  lemma {:induction false} KnownFirst()
    ensures Varint(17713, 36, 72) == Ascii("dqo")
  {
    ThreeDigits(17713, 72, 1, 1, 3, 16, 14, 506);
  }

  lemma {:induction false} KnownSecond()
    ensures Varint(2239, 36, 17) == Ascii("34k")
  {
    ThreeDigits(2239, 17, 19, 26, 29, 30, 10, 130);
  }

  lemma {:induction false} KnownLast()
    ensures Varint(178163, 36, 54) == Ascii("n65z")
  {
    VarintHead(178163, 36, 54, 1, 13, 5090);
    VarintHead(5090, 72, 54, 18, 32, 281);
    VarintHead(281, 108, 54, 26, 31, 25);
    assert Varint(25, 144, 54) == [Digit(25)];
  }

  lemma {:induction false} KnownBias()
    ensures Adapt(17713, 2, true) == 17 && Adapt(2239, 3, false) == 54
    ensures Adapt(828, 10, false) == 33 && Adapt(608, 2, false) == 45
  {
    assert Shrink(455, 0) == 33;
    assert Shrink(13, 36) == 45;
    assert Shrink(456, 0) == Shrink(13, 36);
    assert Shrink(37, 0) == 17;
    assert Shrink(42, 36) == 54;
    assert Shrink(1492, 0) == Shrink(42, 36);
  }
}
