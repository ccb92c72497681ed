/** IPv4 text, src/inet.c: inet_ntop4 and inet_pton4, which accept and produce exactly one spelling. */
module Inet4 {
  import opened Common

  datatype Parsed = Bytes(bytes: seq<byte>) | Bad

  const UV_EINVAL := -22
  const UV_ENOSPC := -28

  predicate IsDigit(c: char) { '0' <= c <= '9' }

  function DigitOf(d: nat): char
    requires d < 10
  {
    '0' + d as char
  }

  /** "%u" of a byte */
  function Dec(n: nat): (s: string)
    requires n < 256
    ensures |s| == if n < 10 then 1 else if n < 100 then 2 else 3
  {
    if n < 10 then [DigitOf(n)] else Dec(n / 10) + [DigitOf(n % 10)]
  }

  /** "%u.%u.%u.%u" */
  function Ntop4(a: seq<byte>): (s: string)
    requires |a| == 4
    ensures 7 <= |s| <= 15
  {
    Dec(a[0]) + "." + Dec(a[1]) + "." + Dec(a[2]) + "." + Dec(a[3])
  }

  /** What inet_pton4 makes of the rest of the text: the octets before the last dot are `done`,
      and `cur` is the octet being read, -1 before its first digit. */
  function Scan4(s: string, p: nat, done: seq<byte>, cur: int): Parsed
    requires p <= |s| && -1 <= cur < 256
    decreases |s| - p
  {
    if p == |s| then (if |done| == 3 && cur >= 0 then Bytes(done + [cur]) else Bad)
    else if IsDigit(s[p]) then
      var nw := (if cur < 0 then 0 else cur) * 10 + (s[p] - '0') as int;
      if cur == 0 || nw > 255 || |done| > 3 then Bad else Scan4(s, p + 1, done, nw)
    else if s[p] == '.' && cur >= 0 then
      if |done| >= 3 then Bad else Scan4(s, p + 1, done + [cur], -1)
    else Bad
  }

  function Pton4(s: string): Parsed { Scan4(s, 0, [], -1) }

  // ---------- The text is the only one ----------

  /** The octets that have been closed by a dot. */
  function Dotted(done: seq<byte>): string {
    if done == [] then "" else Dotted(done[..|done| - 1]) + Dec(done[|done| - 1]) + "."
  }

  lemma {:induction false} DecGrows(n: nat, d: nat)
    requires 0 < n && d < 10 && n * 10 + d < 256
    ensures Dec(n * 10 + d) == Dec(n) + [DigitOf(d)]
  {
  }

  lemma {:induction false} DottedAll(a: seq<byte>)
    requires |a| == 4
    ensures Ntop4(a) == Dotted(a[..3]) + Dec(a[3])
  {
    assert a[..3][..2] == a[..2] && a[..2][..1] == a[..1] && a[..1][..0] == [];
    assert Dotted(a[..1]) == "" + Dec(a[0]) + ".";
    assert Dotted(a[..2]) == Dotted(a[..1]) + Dec(a[1]) + ".";
    assert Dotted(a[..3]) == Dotted(a[..2]) + Dec(a[2]) + ".";
  }

  /** What has been read when `done` are the closed octets and `cur` is the one being read. */
  function SoFar(done: seq<byte>, cur: int): string
    requires -1 <= cur < 256
  {
    Dotted(done) + if cur < 0 then "" else Dec(cur)
  }

  lemma {:induction false} AddDigit(done: seq<byte>, cur: int, c: char, nw: nat)
    requires -1 <= cur < 256 && cur != 0 && IsDigit(c) && nw < 256
    requires nw == (if cur < 0 then 0 else cur) * 10 + (c - '0') as int
    ensures SoFar(done, cur) + [c] == SoFar(done, nw)
  {
    assert DigitOf((c - '0') as int) == c;
    if cur > 0 {
      DecGrows(cur, (c - '0') as int);
      assert Dotted(done) + Dec(cur) + [c] == Dotted(done) + (Dec(cur) + [c]);
    } else {
      assert Dotted(done) + "" == Dotted(done);
    }
  }

  lemma {:induction false} AddDot(done: seq<byte>, cur: byte)
    ensures SoFar(done + [cur], -1) == SoFar(done, cur) + "."
  {
    assert (done + [cur])[..|done|] == done;
  }

  /** Whether `s` is what inet_ntop4 prints for `b`. */
  predicate IsText(s: string, b: seq<byte>) {
    match |b| == 4
    case true => s == Ntop4(b)
    case false => false
  }

  lemma {:induction false} LastOctet(done: seq<byte>, cur: byte)
    requires |done| == 3
    ensures IsText(SoFar(done, cur), done + [cur])
  {
    var b := done + [cur];
    assert b[..3] == done;
    DottedAll(b);
  }

  /** One step of the parser on a text that it accepts. */
  lemma {:induction false} ScanStep(s: string, p: nat, done: seq<byte>, cur: int) returns (done': seq<byte>, cur': int)
    requires p < |s| && -1 <= cur < 256 && Scan4(s, p, done, cur).Bytes?
    ensures -1 <= cur' < 256 && Scan4(s, p, done, cur) == Scan4(s, p + 1, done', cur')
        && SoFar(done', cur') == SoFar(done, cur) + [s[p]]
  {
    if IsDigit(s[p]) {
      var nw := (if cur < 0 then 0 else cur) * 10 + (s[p] - '0') as int;
      AddDigit(done, cur, s[p], nw);
      done', cur' := done, nw;
    } else {
      AddDot(done, cur);
      done', cur' := done + [cur], -1;
    }
  }

  /** Whatever is accepted is the text of the address returned. */
  lemma {:induction false} AcceptedIsText(s: string, p: nat, done: seq<byte>, cur: int)
    requires p <= |s| && -1 <= cur < 256 && s[..p] == SoFar(done, cur)
    requires Scan4(s, p, done, cur).Bytes?
    ensures IsText(s, Scan4(s, p, done, cur).bytes)
    decreases |s| - p
  {
    if p == |s| {
      assert s[..p] == s;
      LastOctet(done, cur);
    } else {
      var done', cur' := ScanStep(s, p, done, cur);
      assert s[..p + 1] == s[..p] + [s[p]];
      AcceptedIsText(s, p + 1, done', cur');
    }
  }

  lemma {:induction false} DecTens(n: nat)
    requires 10 <= n < 256
    ensures Dec(n) == Dec(n / 10) + [DigitOf(n % 10)] && 0 < n / 10 < 26
  {
  }

  lemma {:induction false} SplitLast(s: string, p: nat, t: string, u: string, c: char)
    requires p + |t| <= |s| && s[p..p + |t|] == t && t == u + [c]
    ensures s[p..p + |u|] == u && s[p + |u|] == c
  {
    assert s[p..p + |u|] == s[p..p + |t|][..|u|];
    assert s[p + |u|] == s[p..p + |t|][|u|];
  }

  /** Reading one more digit of an octet. */
  lemma {:induction false} ReadDigit(s: string, q: nat, done: seq<byte>, cur: int, d: nat, n: nat)
    requires q < |s| && d < 10 && s[q] == DigitOf(d) && |done| <= 3 && -1 <= cur < 256 && cur != 0 && n < 256
    requires n == (if cur < 0 then 0 else cur) * 10 + d
    ensures Scan4(s, q, done, cur) == Scan4(s, q + 1, done, n)
  {
  }

  /** Reading one octet. */
  lemma {:induction false} ReadOctet(s: string, p: nat, done: seq<byte>, n: nat)
    requires n < 256 && |done| <= 3 && p + |Dec(n)| <= |s| && s[p..p + |Dec(n)|] == Dec(n)
    ensures Scan4(s, p, done, -1) == Scan4(s, p + |Dec(n)|, done, n)
    decreases n
  {
    if n >= 10 {
      DecTens(n);
      SplitLast(s, p, Dec(n), Dec(n / 10), DigitOf(n % 10));
      ReadOctet(s, p, done, n / 10);
      ReadDigit(s, p + |Dec(n / 10)|, done, n / 10, n % 10, n);
    } else {
      assert s[p] == s[p..p + 1][0];
      ReadDigit(s, p, done, -1, n, n);
    }
  }

  lemma {:induction false} Front(s: string, p: nat, d: string, more: string)
    requires p <= |s| && s[p..] == d + more
    ensures p + |d| <= |s| && s[p..p + |d|] == d && s[p + |d|..] == more
  {
    assert s[p..][..|d|] == d && s[p..][|d|..] == more;
  }

  /** The text from octet k on. */
  function Rest(a: seq<byte>, k: nat): string
    requires |a| == 4 && k <= 3
    decreases 3 - k
  {
    if k == 3 then Dec(a[3]) + "" else Dec(a[k]) + ("." + Rest(a, k + 1))
  }

  lemma {:induction false} ReadDot(s: string, p: nat, done: seq<byte>, n: byte, more: string)
    requires p <= |s| && s[p..] == "." + more && |done| < 3
    ensures p < |s| && s[p + 1..] == more && Scan4(s, p, done, n) == Scan4(s, p + 1, done + [n], -1)
  {
    Front(s, p, ".", more);
    assert s[p] == s[p..p + 1][0];
  }

  lemma {:induction false} ReadOne(s: string, p: nat, done: seq<byte>, n: byte, more: string)
    requires p <= |s| && s[p..] == Dec(n) + more && |done| <= 3
    ensures p + |Dec(n)| <= |s| && s[p + |Dec(n)|..] == more
    ensures Scan4(s, p, done, -1) == Scan4(s, p + |Dec(n)|, done, n)
  {
    Front(s, p, Dec(n), more);
    ReadOctet(s, p, done, n);
  }

  lemma {:induction false} ReadFrom(s: string, p: nat, a: seq<byte>, k: nat)
    requires |a| == 4 && k <= 3 && p <= |s| && s[p..] == Rest(a, k)
    ensures Scan4(s, p, a[..k], -1) == Bytes(a)
    decreases 3 - k
  {
    var q := p + |Dec(a[k])|;
    if k < 3 {
      var more := Rest(a, k + 1);
      ReadOne(s, p, a[..k], a[k], "." + more);
      ReadDot(s, q, a[..k], a[k], more);
      assert a[..k] + [a[k]] == a[..k + 1];
      ReadFrom(s, q + 1, a, k + 1);
    } else {
      ReadOne(s, p, a[..3], a[3], "");
      ReadEnd(s, q, a);
    }
  }

  lemma {:induction false} ReadEnd(s: string, q: nat, a: seq<byte>)
    requires |a| == 4 && q <= |s| && s[q..] == ""
    ensures Scan4(s, q, a[..3], a[3]) == Bytes(a)
  {
    assert a[..3] + [a[3]] == a;
  }

  lemma {:induction false} Flat(a: string, b: string, c: string, d: string)
    ensures a + "." + b + "." + c + "." + d == a + ("." + (b + ("." + (c + ("." + (d + ""))))))
  {
  }

  lemma {:induction false} RestAll(a: seq<byte>)
    requires |a| == 4
    ensures Ntop4(a) == Rest(a, 0)
  {
    Flat(Dec(a[0]), Dec(a[1]), Dec(a[2]), Dec(a[3]));
    assert Rest(a, 2) == Dec(a[2]) + ("." + Rest(a, 3));
  }

  /** inet_pton4 accepts a text exactly if it is what inet_ntop4 prints for some address, and
      then returns that address. */
  lemma {:induction false} Exact4(s: string, a: seq<byte>)
    ensures Pton4(s) == Bytes(a) <==> |a| == 4 && s == Ntop4(a)
  {
    if Pton4(s) == Bytes(a) {
      assert s[..0] == "" == SoFar([], -1);
      AcceptedIsText(s, 0, [], -1);
    }
    if |a| == 4 && s == Ntop4(a) {
      RestAll(a);
      assert s[0..] == s && a[..0] == [];
      ReadFrom(s, 0, a, 0);
    }
  }

  /** The text is four decimal numbers of at most three digits, without leading zeros. */
  lemma {:induction false} Decimal(n: nat)
    requires n < 256
    ensures var s := Dec(n);
      && s == (if n < 10 then ["0123456789"[n]]
               else if n < 100 then ["0123456789"[n / 10], "0123456789"[n % 10]]
               else ["0123456789"[n / 100], "0123456789"[n / 10 % 10], "0123456789"[n % 10]])
  {
    assert forall d | 0 <= d < 10 :: "0123456789"[d] == DigitOf(d);
    if n >= 100 { DecTens(n / 10); }
  }

  // ---------- The program ----------

  /** inet_ntop4 */
  method PrintV4(src: seq<byte>, size: nat) returns (rc: int, text: string)
    requires |src| == 4
    ensures if |Ntop4(src)| < size then rc == 0 && text == Ntop4(src) else rc == UV_ENOSPC
  {
    text := Ntop4(src);
    if |text| >= size { return UV_ENOSPC, ""; }
    rc := 0;
  }

  /** inet_pton4 on a C string. */
  method ParseV4(src: string) returns (rc: int, dst: seq<byte>)
    ensures if Pton4(src).Bytes? then rc == 0 && dst == Pton4(src).bytes else rc == UV_EINVAL
  {
    var tmp: array<byte> := new byte[4](_ => 0);
    var tp, sawDigit, octets, p := 0, false, 0, 0;
    while p < |src|
      invariant p <= |src| && tp < 4 && octets == (if sawDigit then tp + 1 else tp) && (!sawDigit ==> tmp[tp] == 0)
      invariant Scan4(src, p, tmp[..tp], if sawDigit then tmp[tp] else -1) == Pton4(src)
    {
      var ch := src[p];
      p := p + 1;
      if '0' <= ch <= '9' {
        var nw := tmp[tp] * 10 + (ch - '0') as int;
        if sawDigit && tmp[tp] == 0 { return UV_EINVAL, []; }
        if nw > 255 { return UV_EINVAL, []; }
        tmp[tp] := nw;
        if !sawDigit {
          octets := octets + 1;
          if octets > 4 { return UV_EINVAL, []; }
          sawDigit := true;
        }
      } else if ch == '.' && sawDigit {
        if octets == 4 { return UV_EINVAL, []; }
        assert tmp[..tp + 1] == tmp[..tp] + [tmp[tp]];
        tp := tp + 1;
        tmp[tp] := 0;
        sawDigit := false;
      } else {
        return UV_EINVAL, [];
      }
    }
    if octets < 4 { return UV_EINVAL, []; }
    assert tmp[..] == tmp[..3] + [tmp[3]];
    return 0, tmp[..];
  }
}
