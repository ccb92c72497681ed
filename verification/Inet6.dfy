/** IPv6 text, src/inet.c: inet_ntop6 and inet_pton6.

    A `Form` is a text of section 2.2 of RFC 4291 taken apart.  inet_pton6 accepts exactly the texts
    of valid forms, and returns what they denote; inet_ntop6 prints one such form of its address. */
module Inet6 {
  import opened Common
  import opened Inet4

  // ---------- Groups of hex digits ----------

  predicate IsHex(c: char) { '0' <= c <= '9' || 'a' <= c <= 'f' || 'A' <= c <= 'F' }

  function HexDigit(c: char): (d: nat)
    requires IsHex(c)
    ensures d < 16
  {
    (if c <= '9' then c - '0' else if c >= 'a' then c - 'a' + 10 as char else c - 'A' + 10 as char) as int
  }

  /** The digits are those of either case, each with its value. */
  lemma {:induction false} HexDigits(c: char, d: nat)
    ensures IsHex(c) && HexDigit(c) == d <==> d < 16 && (c == "0123456789abcdef"[d] || c == "0123456789ABCDEF"[d])
  {
    if d < 10 {
      assert "0123456789abcdef"[d] == '0' + d as char && "0123456789ABCDEF"[d] == '0' + d as char;
    } else if d < 16 {
      assert "0123456789abcdef"[d] == 'a' + (d - 10) as char && "0123456789ABCDEF"[d] == 'A' + (d - 10) as char;
    }
  }

  predicate AllHex(g: string) { forall k | 0 <= k < |g| :: IsHex(g[k]) }

  predicate IsGroup(g: string) { 1 <= |g| <= 4 && AllHex(g) }

  function HexVal(g: string): nat
    requires AllHex(g)
  {
    if g == "" then 0 else HexVal(g[..|g| - 1]) * 16 + HexDigit(g[|g| - 1])
  }

  lemma {:induction false} HexBound(g: string)
    requires AllHex(g)
    ensures |g| <= 4 ==>
        HexVal(g) < 0x10000 && (|g| <= 3 ==> HexVal(g) < 0x1000) && (|g| <= 2 ==> HexVal(g) < 0x100)
        && (|g| <= 1 ==> HexVal(g) < 0x10) && (|g| == 0 ==> HexVal(g) == 0)
  {
    if g != "" { HexBound(g[..|g| - 1]); }
  }

  function TwoBytes(g: string): (bs: seq<byte>)
    requires IsGroup(g)
    ensures |bs| == 2
  {
    HexBound(g);
    [HexVal(g) / 256, HexVal(g) % 256]
  }

  // ---------- Forms ----------

  datatype Last = Nothing | Hex(group: string) | Quad(quad: seq<byte>)

  /** The groups that carry a colon behind them; the place of "::" among them, or -1; and what ends the text. */
  datatype Form = Form(groups: seq<string>, gap: int, last: Last)

  function Colons(gs: seq<string>): string { if gs == [] then "" else Colons(gs[..|gs| - 1]) + gs[|gs| - 1] + ":" }

  function GroupBytes(gs: seq<string>): (bs: seq<byte>)
    requires forall k | 0 <= k < |gs| :: IsGroup(gs[k])
    ensures |bs| == 2 * |gs|
  {
    if gs == [] then [] else GroupBytes(gs[..|gs| - 1]) + TwoBytes(gs[|gs| - 1])
  }

  predicate LastOk(l: Last) {
    match l case Nothing => true case Hex(g) => IsGroup(g) case Quad(q) => |q| == 4
  }

  function LastText(l: Last): string
    requires LastOk(l)
  {
    match l case Nothing => "" case Hex(g) => g case Quad(q) => Ntop4(q)
  }

  function LastBytes(l: Last): seq<byte>
    requires LastOk(l)
  {
    match l case Nothing => [] case Hex(g) => TwoBytes(g) case Quad(q) => q
  }

  predicate GroupsOk(gs: seq<string>) { forall k | 0 <= k < |gs| :: IsGroup(gs[k]) }

  /** Groups of hex digits, with at most one "::" among them, for at most 16 bytes. */
  predicate Fits(f: Form) {
    && GroupsOk(f.groups) && LastOk(f.last) && -1 <= f.gap <= |f.groups|
    && (f.last == Nothing ==> f.gap == |f.groups|)
    && 2 * |f.groups| + |LastBytes(f.last)| <= 16
  }

  /** Eight groups, an IPv4 ending counting as two; or fewer, and "::" for at least one of zeros. */
  predicate Valid(f: Form) {
    && Fits(f)
    && var n := 2 * |f.groups| + |LastBytes(f.last)|;
    if f.gap < 0 then n == 16 else n <= 14
  }

  /** The text in front of the ending, when the "::" is at `gap`. */
  function Lead(gs: seq<string>, gap: int): string
    requires -1 <= gap <= |gs|
  {
    if gap < 0 then Colons(gs) else (if gap == 0 then ":" else "") + Colons(gs[..gap]) + ":" + Colons(gs[gap..])
  }

  function Text(f: Form): string
    requires Valid(f)
  {
    Lead(f.groups, f.gap) + LastText(f.last)
  }

  function Zeros(n: nat): (z: seq<byte>)
    ensures |z| == n && forall k | 0 <= k < n :: z[k] == 0
  {
    seq(n, k => 0)
  }

  /** The 16 bytes: zeros stand where the "::" is. */
  function Denotes(f: Form): (bs: seq<byte>)
    requires Valid(f)
    ensures |bs| == 16
  {
    var bs := GroupBytes(f.groups) + LastBytes(f.last);
    if f.gap < 0 then bs else bs[..2 * f.gap] + Zeros(16 - |bs|) + bs[2 * f.gap..]
  }

  // ---------- The parser on values ----------

  /** The bytes stored, the place of the "::" in them or -1, and the digits of a last group. */
  datatype Scanned = Done(out: seq<byte>, colon: int, tok: string) | Fail

  /** The main loop: `out` are the bytes stored, `colon` the place of "::" or -1, `tok` the hex
      digits read since the last colon. */
  function Scan6(s: string, p: nat, out: seq<byte>, colon: int, tok: string): (r: Scanned)
    requires p <= |s| && |out| <= 16 && -1 <= colon <= |out| && |tok| <= 4 && AllHex(tok) && |tok| <= p
    ensures r.Done? ==> |r.out| <= 16 && -1 <= r.colon <= |r.out| && |r.tok| <= 4 && AllHex(r.tok)
    decreases |s| - p
  {
    if p == |s| then Done(out, colon, tok)
    else if IsHex(s[p]) then
      if |tok| == 4 then Fail else Scan6(s, p + 1, out, colon, tok + [s[p]])
    else if s[p] == ':' then
      if tok == "" then (if colon >= 0 then Fail else Scan6(s, p + 1, out, |out|, ""))
      else if p + 1 == |s| || |out| + 2 > 16 then Fail
      else Scan6(s, p + 1, out + TwoBytes(tok), colon, "")
    else if s[p] == '.' && |out| + 4 <= 16 then
      match Pton4(s[p - |tok|..])
      case Bytes(q) => Exact4(s[p - |tok|..], q); Done(out + q, colon, "")
      case Bad => Fail
    else Fail
  }

  /** Lines 272-297: the last group, and the shift that makes room for the zeros. */
  function Finish(out: seq<byte>, colon: int, tok: string): Parsed
    requires |out| <= 16 && -1 <= colon <= |out| && |tok| <= 4 && AllHex(tok)
  {
    if tok != "" && |out| + 2 > 16 then Bad
    else
      var bs := if tok != "" then out + TwoBytes(tok) else out;
      if colon < 0 then (if |bs| == 16 then Bytes(bs) else Bad)
      else if |bs| == 16 then Bad
      else Bytes(bs[..colon] + Zeros(16 - |bs|) + bs[colon..])
  }

  function Pton6(s: string): Parsed {
    if s != "" && s[0] == ':' && (|s| < 2 || s[1] != ':') then Bad
    else match Scan6(s, if s != "" && s[0] == ':' then 1 else 0, [], -1, "")
      case Done(out, colon, tok) => Finish(out, colon, tok)
      case Fail => Bad
  }

  // ---------- Every accepted text has a form ----------

  /** Where the colon pointer is. */
  function ColonOf(gap: int): int { if gap < 0 then -1 else 2 * gap }

  lemma {:induction false} LeadGrows(gs: seq<string>, gap: int, g: string)
    requires -1 <= gap <= |gs|
    ensures Lead(gs + [g], gap) == Lead(gs, gap) + g + ":"
  {
    var hs := gs + [g];
    assert hs[..|gs|] == gs;
    if gap >= 0 {
      assert hs[..gap] == gs[..gap] && hs[gap..] == gs[gap..] + [g];
      assert hs[gap..][..|gs| - gap] == gs[gap..];
    }
  }

  lemma {:induction false} LeadGap(gs: seq<string>)
    requires gs != []
    ensures Lead(gs, |gs|) == Lead(gs, -1) + ":"
  {
    assert gs[..|gs|] == gs && gs[|gs|..] == [];
    assert "" + Colons(gs) + ":" + "" == Colons(gs) + ":";
  }

  lemma {:induction false} BytesGrow(gs: seq<string>, g: string)
    requires GroupsOk(gs) && IsGroup(g)
    ensures GroupsOk(gs + [g]) && GroupBytes(gs + [g]) == GroupBytes(gs) + TwoBytes(g)
  {
    assert (gs + [g])[..|gs|] == gs;
  }

  /** The parser's state after the first p characters, which spell some groups and a gap. */
  ghost predicate Reading(s: string, p: nat, gs: seq<string>, gap: int, tok: string) {
    match p <= |s| && GroupsOk(gs) && |gs| <= 8 && -1 <= gap <= |gs| && |tok| <= 4 && AllHex(tok) && |tok| <= p
    case false => false
    case true =>
      && s[..p] == Lead(gs, gap) + tok && (p == 0 && s != "" ==> s[0] != ':')
      && (gs == [] && gap < 0 && tok == "" ==> p == 0) && (tok != "" || p < |s| || gap == |gs| || p == 0)
  }

  ghost predicate IsForm(f: Form, s: string, bs: seq<byte>) {
    match Valid(f)
    case true => Text(f) == s && Denotes(f) == bs
    case false => false
  }

  /** The groups and the ending that a scan has found. */
  ghost predicate Found(s: string, gs: seq<string>, gap: int, last: Last, r: Scanned) {
    match r.Done? && GroupsOk(gs) && LastOk(last) && -1 <= gap <= |gs|
    case false => false
    case true =>
      && s == Lead(gs, gap) + LastText(last) && r.colon == ColonOf(gap) && (last == Nothing ==> gap == |gs| || s == "")
      && (if last.Hex? then r.tok == last.group && r.out == GroupBytes(gs)
          else r.tok == "" && r.out == GroupBytes(gs) + LastBytes(last))
  }

  lemma {:induction false} Accepted(s: string, p: nat, gs: seq<string>, gap: int, tok: string, r: Scanned)
      returns (hs: seq<string>, hap: int, last: Last)
    requires Reading(s, p, gs, gap, tok) && r.Done? && r == Scan6(s, p, GroupBytes(gs), ColonOf(gap), tok)
    ensures Found(s, hs, hap, last, r)
    decreases |s| - p
  {
    if p == |s| {
      hs, hap, last := gs, gap, if tok == "" then Nothing else Hex(tok);
      AcceptedEnd(s, p, gs, gap, tok);
    } else if IsHex(s[p]) {
      DigitReading(s, p, gs, gap, tok);
      hs, hap, last := Accepted(s, p + 1, gs, gap, tok + [s[p]], r);
    } else if s[p] == ':' && tok == "" {
      hs, hap, last := AcceptedGap(s, p, gs, gap, r);
    } else if s[p] == ':' {
      hs, hap, last := AcceptedGroup(s, p, gs, gap, tok, r);
    } else {
      hs, hap, last := gs, gap, Quad(Pton4(s[p - |tok|..]).bytes);
      AcceptedQuad(s, p, gs, gap, tok);
    }
  }

  lemma {:induction false} AcceptedGap(s: string, p: nat, gs: seq<string>, gap: int, r: Scanned)
      returns (hs: seq<string>, hap: int, last: Last)
    requires Reading(s, p, gs, gap, "") && r.Done? && r == Scan6(s, p, GroupBytes(gs), ColonOf(gap), "")
    requires p < |s| && s[p] == ':'
    ensures Found(s, hs, hap, last, r)
    decreases |s| - p, 0
  {
    GapReading(s, p, gs, gap);
    hs, hap, last := Accepted(s, p + 1, gs, |gs|, "", r);
  }

  lemma {:induction false} AcceptedGroup(s: string, p: nat, gs: seq<string>, gap: int, tok: string, r: Scanned)
      returns (hs: seq<string>, hap: int, last: Last)
    requires Reading(s, p, gs, gap, tok) && r.Done? && r == Scan6(s, p, GroupBytes(gs), ColonOf(gap), tok)
    requires p < |s| && s[p] == ':' && tok != ""
    ensures Found(s, hs, hap, last, r)
    decreases |s| - p, 0
  {
    GroupReading(s, p, gs, gap, tok);
    hs, hap, last := Accepted(s, p + 1, gs + [tok], gap, "", r);
  }

  lemma {:induction false} OneMore(s: string, p: nat, t: string, tok: string, c: char)
    requires p < |s| && s[..p] == t + tok && s[p] == c
    ensures s[..p + 1] == t + (tok + [c]) && s[..p + 1] == t + tok + [c]
  {
    assert s[..p + 1] == s[..p] + [s[p]];
  }

  lemma {:induction false} DigitReading(s: string, p: nat, gs: seq<string>, gap: int, tok: string)
    requires Reading(s, p, gs, gap, tok) && p < |s| && IsHex(s[p])
        && Scan6(s, p, GroupBytes(gs), ColonOf(gap), tok).Done?
    ensures Reading(s, p + 1, gs, gap, tok + [s[p]])
    ensures Scan6(s, p, GroupBytes(gs), ColonOf(gap), tok) ==
        Scan6(s, p + 1, GroupBytes(gs), ColonOf(gap), tok + [s[p]])
  {
    OneMore(s, p, Lead(gs, gap), tok, s[p]);
  }

  lemma {:induction false} GapReading(s: string, p: nat, gs: seq<string>, gap: int)
    requires Reading(s, p, gs, gap, "") && p < |s| && s[p] == ':' && Scan6(s, p, GroupBytes(gs), ColonOf(gap), "").Done?
    ensures Reading(s, p + 1, gs, |gs|, "")
    ensures Scan6(s, p, GroupBytes(gs), ColonOf(gap), "") == Scan6(s, p + 1, GroupBytes(gs), ColonOf(|gs|), "")
  {
    assert gs != [];
    OneMore(s, p, Lead(gs, gap), "", ':');
    LeadGap(gs);
    assert Lead(gs, gap) + "" == Lead(gs, gap) && Lead(gs, |gs|) + "" == Lead(gs, |gs|);
  }

  lemma {:induction false} GroupScan(s: string, p: nat, out: seq<byte>, colon: int, tok: string)
    requires p < |s| && |out| <= 16 && -1 <= colon <= |out| && IsGroup(tok) && |tok| <= p && s[p] == ':'
    requires Scan6(s, p, out, colon, tok).Done?
    ensures |out| + 2 <= 16 && p + 1 < |s|
    ensures Scan6(s, p, out, colon, tok) == Scan6(s, p + 1, out + TwoBytes(tok), colon, "")
  {
  }

  lemma {:induction false} GroupReading(s: string, p: nat, gs: seq<string>, gap: int, tok: string)
    requires Reading(s, p, gs, gap, tok) && tok != "" && p < |s| && s[p] == ':'
        && Scan6(s, p, GroupBytes(gs), ColonOf(gap), tok).Done?
    ensures Reading(s, p + 1, gs + [tok], gap, "")
    ensures Scan6(s, p, GroupBytes(gs), ColonOf(gap), tok) == Scan6(s, p + 1, GroupBytes(gs + [tok]), ColonOf(gap), "")
  {
    GroupScan(s, p, GroupBytes(gs), ColonOf(gap), tok);
    OneMore(s, p, Lead(gs, gap), tok, ':');
    BytesGrow(gs, tok);
    LeadGrows(gs, gap, tok);
    assert Lead(gs + [tok], gap) + "" == Lead(gs + [tok], gap);
  }

  lemma {:induction false} AcceptedEnd(s: string, p: nat, gs: seq<string>, gap: int, tok: string)
    requires Reading(s, p, gs, gap, tok) && p == |s|
    ensures Found(s, gs, gap, if tok == "" then Nothing else Hex(tok), Scan6(s, p, GroupBytes(gs), ColonOf(gap), tok))
  {
    assert s[..p] == s;
    assert GroupBytes(gs) + [] == GroupBytes(gs);
    if tok == "" { assert Lead(gs, gap) + "" == Lead(gs, gap); }
  }

  lemma {:induction false} AcceptedQuad(s: string, p: nat, gs: seq<string>, gap: int, tok: string)
    requires Reading(s, p, gs, gap, tok) && p < |s| && s[p] == '.'
        && Scan6(s, p, GroupBytes(gs), ColonOf(gap), tok).Done?
    ensures Pton4(s[p - |tok|..]).Bytes?
    ensures Found(s, gs, gap, Quad(Pton4(s[p - |tok|..]).bytes), Scan6(s, p, GroupBytes(gs), ColonOf(gap), tok))
  {
    var t := s[p - |tok|..];
    Exact4(t, Pton4(t).bytes);
    QuadText(s, p, Lead(gs, gap), tok);
  }

  lemma {:induction false} QuadText(s: string, p: nat, lead: string, tok: string)
    requires p <= |s| && |tok| <= p && s[..p] == lead + tok
    ensures s == lead + s[p - |tok|..]
  {
    assert s[..p][..p - |tok|] == lead;
    assert s == s[..p - |tok|] + s[p - |tok|..];
  }

  lemma {:induction false} Even(a: nat, b: nat)
    requires b in {0, 2, 4} && 2 * a + b <= 16
    ensures 2 * a + b == 16 || 2 * a + b <= 14
  {
  }

  /** What was found is a valid form of the text if the parser's last checks pass, and conversely. */
  lemma {:induction false} FinishForm(gs: seq<string>, gap: int, last: Last, out: seq<byte>, colon: int, tok: string)
    requires GroupsOk(gs) && LastOk(last) && -1 <= gap <= |gs| && (last == Nothing ==> gap == |gs|)
    requires |out| <= 16 && colon == ColonOf(gap)
    requires if last.Hex? then tok == last.group && out == GroupBytes(gs)
        else tok == "" && out == GroupBytes(gs) + LastBytes(last)
    ensures Finish(out, colon, tok).Bytes? <==> Valid(Form(gs, gap, last))
    ensures Valid(Form(gs, gap, last)) ==> Finish(out, colon, tok) == Bytes(Denotes(Form(gs, gap, last)))
  {
    var f, bs := Form(gs, gap, last), GroupBytes(gs) + LastBytes(last);
    assert |LastBytes(last)| in {0, 2, 4};
    if |bs| <= 16 { Even(|gs|, |LastBytes(last)|); }
    FinishBytes(gs, last, out, colon, tok);
  }

  /** The parser's last checks and its shift, on all the bytes stored. */
  lemma {:induction false} FinishBytes(gs: seq<string>, last: Last, out: seq<byte>, colon: int, tok: string)
    requires GroupsOk(gs) && LastOk(last) && |out| <= 16 && -1 <= colon <= |out|
    requires if last.Hex? then tok == last.group && out == GroupBytes(gs)
        else tok == "" && out == GroupBytes(gs) + LastBytes(last)
    ensures var bs := GroupBytes(gs) + LastBytes(last);
      Finish(out, colon, tok) ==
        if |bs| > 16 then Bad
        else if colon < 0 then (if |bs| == 16 then Bytes(bs) else Bad)
        else if |bs| == 16 then Bad else Bytes(bs[..colon] + Zeros(16 - |bs|) + bs[colon..])
  {
  }

  // ---------- Every form is accepted ----------

  /** The text of a form from group k on, behind a gap at k. */
  function Rest(f: Form, k: nat): string
    requires Fits(f) && k <= |f.groups|
    decreases |f.groups| - k
  {
    if k == |f.groups| then LastText(f.last)
    else f.groups[k] + (":" + ((if f.gap == k + 1 then ":" else "") + Rest(f, k + 1)))
  }

  /** How the scan of a form's text ends. */
  function Ended(f: Form): Scanned
    requires Fits(f)
  {
    var out, colon := GroupBytes(f.groups), ColonOf(f.gap);
    if f.last.Hex? then Done(out, colon, f.last.group) else Done(out + LastBytes(f.last), colon, "")
  }

  function GapSoFar(f: Form, k: nat): int { if f.gap <= k then f.gap else -1 }

  lemma {:induction false} LeadStep(f: Form, k: nat)
    requires Fits(f) && k < |f.groups|
    ensures Lead(f.groups[..k + 1], GapSoFar(f, k + 1)) ==
        Lead(f.groups[..k], GapSoFar(f, k)) + f.groups[k] + ":" + if f.gap == k + 1 then ":" else ""
  {
    var gs := f.groups[..k + 1];
    assert gs == f.groups[..k] + [f.groups[k]];
    LeadGrows(f.groups[..k], GapSoFar(f, k), f.groups[k]);
    if f.gap == k + 1 { LeadGap(gs); }
  }

  lemma {:induction false} Join5(a: string, b: string, c: string, d: string, e: string)
    ensures a + (b + (c + (d + e))) == a + b + c + d + e
  {
  }

  lemma {:induction false} LeadRest(f: Form, k: nat)
    requires Fits(f) && k <= |f.groups|
    ensures Lead(f.groups[..k], GapSoFar(f, k)) + Rest(f, k) == Lead(f.groups, f.gap) + LastText(f.last)
    decreases |f.groups| - k
  {
    if k == |f.groups| {
      assert f.groups[..k] == f.groups;
    } else {
      LeadRest(f, k + 1);
      LeadStep(f, k);
      Join5(Lead(f.groups[..k], GapSoFar(f, k)), f.groups[k], ":", if f.gap == k + 1 then ":" else "", Rest(f, k + 1));
    }
  }

  lemma {:induction false} ReadDigits(s: string, p: nat, out: seq<byte>, colon: int, tok: string, g: string,
      more: string)
    requires p <= |s| && |out| <= 16 && -1 <= colon <= |out| && |tok| <= p && AllHex(tok) && AllHex(g)
        && |tok| + |g| <= 4 && s[p..] == g + more
    ensures p + |g| <= |s| && s[p + |g|..] == more && AllHex(tok + g)
    ensures Scan6(s, p, out, colon, tok) == Scan6(s, p + |g|, out, colon, tok + g)
    decreases |g|
  {
    Front(s, p, g, more);
    if g == "" {
      assert tok + g == tok;
    } else {
      assert s[p] == s[p..][0] == g[0];
      assert s[p + 1..] == s[p..][1..] == g[1..] + more;
      assert tok + [g[0]] + g[1..] == tok + g;
      ReadDigits(s, p + 1, out, colon, tok + [g[0]], g[1..], more);
    }
  }

  lemma {:induction false} ReadColon(s: string, p: nat, out: seq<byte>, colon: int, g: string, more: string)
    requires p <= |s| && |out| + 2 <= 16 && -1 <= colon <= |out| && IsGroup(g) && |g| <= p && s[p..] == ":" + more
        && more != ""
    ensures p < |s| && s[p + 1..] == more && Scan6(s, p, out, colon, g) == Scan6(s, p + 1, out + TwoBytes(g), colon, "")
  {
    Front(s, p, ":", more);
    assert s[p] == s[p..p + 1][0];
  }

  lemma {:induction false} ReadGap(s: string, p: nat, out: seq<byte>, more: string)
    requires p <= |s| && |out| <= 16 && s[p..] == ":" + more
    ensures p < |s| && s[p + 1..] == more && Scan6(s, p, out, -1, "") == Scan6(s, p + 1, out, |out|, "")
  {
    Front(s, p, ":", more);
    assert s[p] == s[p..p + 1][0];
  }

  lemma {:induction false} ReadRest(s: string, p: nat, f: Form, k: nat)
    requires Fits(f) && k <= |f.groups| && p <= |s| && s[p..] == Rest(f, k)
    ensures Scan6(s, p, GroupBytes(f.groups[..k]), ColonOf(GapSoFar(f, k)), "") == Ended(f)
    decreases |f.groups| - k
  {
    var out, colon := GroupBytes(f.groups[..k]), ColonOf(GapSoFar(f, k));
    if k == |f.groups| {
      assert f.groups[..k] == f.groups;
      ReadLast(s, p, f);
    } else {
      var q := ReadOne(s, p, f, k);
      ReadRest(s, q, f, k + 1);
    }
  }

  lemma {:induction false} GapStep(f: Form, k: nat)
    requires Fits(f) && k < |f.groups|
    ensures |GroupBytes(f.groups[..k + 1])| == 2 * (k + 1)
    ensures GroupBytes(f.groups[..k + 1]) == GroupBytes(f.groups[..k]) + TwoBytes(f.groups[k])
    ensures f.gap == k + 1 ==> ColonOf(GapSoFar(f, k)) == -1 && ColonOf(GapSoFar(f, k + 1)) == 2 * (k + 1) <= 16
    ensures f.gap != k + 1 ==> ColonOf(GapSoFar(f, k + 1)) == ColonOf(GapSoFar(f, k))
  {
    BytesGrow(f.groups[..k], f.groups[k]);
    assert f.groups[..k + 1] == f.groups[..k] + [f.groups[k]];
  }

  /** A group, its colon, and the gap if it comes next. */
  lemma {:induction false} ReadOne(s: string, p: nat, f: Form, k: nat) returns (q: nat)
    requires Fits(f) && k < |f.groups| && p <= |s| && s[p..] == Rest(f, k)
    ensures q <= |s| && s[q..] == Rest(f, k + 1)
    ensures Scan6(s, p, GroupBytes(f.groups[..k]), ColonOf(GapSoFar(f, k)), "") ==
        Scan6(s, q, GroupBytes(f.groups[..k + 1]), ColonOf(GapSoFar(f, k + 1)), "")
  {
    GapStep(f, k);
    ReadGroup(s, p, f, k);
    q := ReadGapAt(s, p + |f.groups[k]| + 1, GroupBytes(f.groups[..k + 1]), ColonOf(GapSoFar(f, k)), f.gap ==
        k + 1, Rest(f, k + 1));
  }

  lemma {:induction false} ReadGapAt(s: string, p: nat, out: seq<byte>, colon: int, here: bool, more: string)
      returns (q: nat)
    requires p <= |s| && |out| <= 16 && -1 <= colon <= |out| && (here ==> colon == -1)
    requires s[p..] == (if here then ":" else "") + more
    ensures q <= |s| && s[q..] == more
    ensures Scan6(s, p, out, colon, "") == Scan6(s, q, out, if here then |out| else colon, "")
  {
    if here {
      ReadGap(s, p, out, more);
      q := p + 1;
    } else {
      assert "" + more == more;
      q := p;
    }
  }

  lemma {:induction false} ReadGroup(s: string, p: nat, f: Form, k: nat)
    requires Fits(f) && k < |f.groups| && p <= |s| && s[p..] == Rest(f, k)
    ensures var g, out, colon := f.groups[k], GroupBytes(f.groups[..k]), ColonOf(GapSoFar(f, k)); var q := p + |g| + 1;
      && q <= |s| && s[q..] == (if f.gap == k + 1 then ":" else "") + Rest(f, k + 1)
      && Scan6(s, p, out, colon, "") == Scan6(s, q, out + TwoBytes(g), colon, "")
  {
    var g, out, colon := f.groups[k], GroupBytes(f.groups[..k]), ColonOf(GapSoFar(f, k));
    var tail := (if f.gap == k + 1 then ":" else "") + Rest(f, k + 1);
    MoreBehind(f, k);
    ReadDigits(s, p, out, colon, "", g, ":" + tail);
    assert "" + g == g;
    ReadColon(s, p + |g|, out, colon, g, tail);
  }

  /** A colon is never the end of the text, except in "::". */
  lemma {:induction false} MoreBehind(f: Form, k: nat)
    requires Fits(f) && k < |f.groups|
    ensures f.gap == k + 1 || Rest(f, k + 1) != ""
  {
    if k + 1 == |f.groups| {
      if f.last.Hex? { assert IsGroup(f.last.group); }
    } else {
      assert IsGroup(f.groups[k + 1]);
    }
  }

  lemma {:induction false} ReadLast(s: string, p: nat, f: Form)
    requires Fits(f) && p <= |s| && s[p..] == LastText(f.last)
    ensures Scan6(s, p, GroupBytes(f.groups), ColonOf(f.gap), "") == Ended(f)
  {
    var out, colon := GroupBytes(f.groups), ColonOf(f.gap);
    match f.last
    case Nothing => assert out + [] == out;
    case Hex(g) =>
      assert g + "" == g;
      ReadDigits(s, p, out, colon, "", g, "");
      assert "" + g == g;
    case Quad(q) => ReadQuad(s, p, f, q);
  }

  lemma {:induction false} DecIsHex(n: nat)
    requires n < 256
    ensures AllHex(Dec(n))
  {
    if n >= 10 { DecIsHex(n / 10); }
  }

  lemma {:induction false} ReadQuad(s: string, p: nat, f: Form, q: seq<byte>)
    requires Fits(f) && f.last == Quad(q) && p <= |s| && s[p..] == Ntop4(q)
    ensures Scan6(s, p, GroupBytes(f.groups), ColonOf(f.gap), "") == Ended(f)
  {
    var out, colon, d := GroupBytes(f.groups), ColonOf(f.gap), Dec(q[0]);
    DecIsHex(q[0]);
    RestAll(q);
    ReadDigits(s, p, out, colon, "", d, "." + Inet4.Rest(q, 1));
    assert "" + d == d;
    var r := p + |d|;
    Front(s, r, ".", Inet4.Rest(q, 1));
    assert s[r] == s[r..r + 1][0] == '.';
    Exact4(s[p..], q);
  }

  /** inet_pton6 accepts exactly the texts of valid forms, and returns what they denote. */
  lemma {:induction false} Exact6(s: string, bs: seq<byte>)
    ensures Pton6(s) == Bytes(bs) <==> exists f :: IsForm(f, s, bs)
  {
    if Pton6(s) == Bytes(bs) { var f := PtonSound(s); }
    forall f | IsForm(f, s, bs) ensures Pton6(s) == Bytes(bs) { PtonComplete(f); }
  }

  lemma {:induction false} PtonSound(s: string) returns (f: Form)
    requires Pton6(s).Bytes?
    ensures IsForm(f, s, Pton6(s).bytes)
  {
    var gs, gap, last;
    if s[0] == ':' {
      assert s[..2] == "::" && Lead([], 0) == "::" && "::" + "" == "::";
      assert Scan6(s, 1, [], -1, "") == Scan6(s, 2, [], 0, "");
      gs, gap, last := Accepted(s, 2, [], 0, "", Scan6(s, 1, [], -1, ""));
    } else {
      assert s[..0] == "" == Lead([], -1) + "";
      gs, gap, last := Accepted(s, 0, [], -1, "", Scan6(s, 0, [], -1, ""));
    }
    f := Form(gs, gap, last);
    var r := Scan6(s, if s[0] == ':' then 1 else 0, [], -1, "");
    FinishForm(gs, gap, last, r.out, r.colon, r.tok);
  }

  lemma {:induction false} PtonComplete(f: Form)
    requires Valid(f)
    ensures Pton6(Text(f)) == Bytes(Denotes(f))
  {
    ReadForm(f);
    var r := Ended(f);
    FinishForm(f.groups, f.gap, f.last, r.out, r.colon, r.tok);
  }

  /** Texts of groups with at most one "::" are accepted exactly if the count is right: eight groups, an IPv4 ending
      counting as two, or at most seven and the "::". */
  lemma {:induction false} CountExact(f: Form)
    requires Fits(f)
    ensures Pton6(Lead(f.groups, f.gap) + LastText(f.last)).Bytes? <==>
        var n := |f.groups| + match f.last case Nothing => 0 case Hex(_) => 1 case Quad(_) => 2;
        if f.gap < 0 then n == 8 else n <= 7
  {
    if f.gap >= 0 || 0 < 2 * |f.groups| {
      ReadForm(f);
    } else if f.last.Hex? {
      OneGroup(f.last.group);
    } else {
      OneQuad(f.last.quad);
    }
  }

  /** The text of a form is read to its end. */
  lemma {:induction false} ReadForm(f: Form)
    requires Fits(f) && (f.gap >= 0 || f.groups != [])
    ensures var r := Ended(f); Pton6(Lead(f.groups, f.gap) + LastText(f.last)) == Finish(r.out, r.colon, r.tok)
  {
    var s := Lead(f.groups, f.gap) + LastText(f.last);
    LeadRest(f, 0);
    assert f.groups[..0] == [];
    if f.gap == 0 {
      assert s == "::" + Rest(f, 0);
      assert s[2..] == Rest(f, 0) && s[0] == ':' && s[1] == ':';
      assert Scan6(s, 1, [], -1, "") == Scan6(s, 2, [], 0, "");
      ReadRest(s, 2, f, 0);
    } else {
      assert s == Rest(f, 0);
      assert s[0..] == s;
      FirstChar(f);
      ReadRest(s, 0, f, 0);
    }
  }

  lemma {:induction false} OneGroup(g: string)
    requires IsGroup(g)
    ensures Lead([], -1) + g == g && Pton6(g) == Bad
  {
    var f := Form([], -1, Hex(g));
    assert g[0..] == g && GroupBytes([]) == [];
    ReadLast(g, 0, f);
  }

  lemma {:induction false} OneQuad(q: seq<byte>)
    requires |q| == 4
    ensures Lead([], -1) + Ntop4(q) == Ntop4(q) && Pton6(Ntop4(q)) == Bad
  {
    var f, s := Form([], -1, Quad(q)), Ntop4(q);
    assert s[0..] == s && GroupBytes([]) == [];
    DecIsHex(q[0]);
    assert s[0] == Dec(q[0])[0];
    ReadLast(s, 0, f);
  }

  /** A text without a leading "::" does not start with a colon. */
  lemma {:induction false} FirstChar(f: Form)
    requires Fits(f) && f.gap != 0 && f.groups != []
    ensures Rest(f, 0) != "" && Rest(f, 0)[0] != ':'
  {
    assert IsGroup(f.groups[0]) && IsHex(f.groups[0][0]);
  }

  // ---------- inet_pton6 ----------

  predicate ZeroFrom(bs: seq<byte>, k: nat) { forall j | k <= j < |bs| :: bs[j] == 0 }

  /** Storing the two bytes of a group. */
  method Store(tmp: array<byte>, tp: nat, val: nat, ghost g: string)
    requires tmp.Length == 16 && tp + 2 <= 16 && IsGroup(g) && val == HexVal(g)
    modifies tmp
    ensures tmp[..tp + 2] == old(tmp[..tp]) + TwoBytes(g) && tmp[tp + 2..] == old(tmp[tp + 2..])
  {
    HexBound(g);
    tmp[tp] := val / 256 % 256;
    tmp[tp + 1] := val % 256;
    assert tmp[..tp + 2] == tmp[..tp] + [tmp[tp], tmp[tp + 1]];
  }

  lemma {:induction false} OneDigit(g: string, c: char)
    requires AllHex(g) && IsHex(c)
    ensures AllHex(g + [c]) && HexVal(g + [c]) == HexVal(g) * 16 + HexDigit(c)
  {
    assert (g + [c])[..|g|] == g;
  }

  /** Lines 226-271: reads up to the end, or up to an IPv4 ending. */
  method ScanText(src: string, start: nat, tmp: array<byte>)
      returns (ok: bool, tp: nat, colonp: int, seen: nat, val: nat, ghost tok: string)
    requires start <= |src| && tmp.Length == 16 && ZeroFrom(tmp[..], 0)
    modifies tmp
    ensures ok <==> Scan6(src, start, [], -1, "").Done?
    ensures ok ==> tp <= 16 && Scan6(src, start, [], -1, "") == Done(tmp[..tp], colonp, tok)
    ensures ok ==> AllHex(tok) && seen == |tok| && val == HexVal(tok) && ZeroFrom(tmp[..], tp)
  {
    ghost var target := Scan6(src, start, [], -1, "");
    ok, tp, colonp, seen, val, tok := false, 0, -1, 0, 0, "";
    var curtok: nat, p: nat := start, start;
    assert tmp[..0] == [];
    while p < |src|
      invariant start <= p <= |src| && tp <= 16 && -1 <= colonp <= tp && curtok + seen == p
      invariant seen == |tok| <= 4 && AllHex(tok) && val == HexVal(tok) && ZeroFrom(tmp[..], tp)
      invariant Scan6(src, p, tmp[..tp], colonp, tok) == target
    {
      var ch := src[p];
      p := p + 1;
      if IsHex(ch) {
        OneDigit(tok, ch);
        val := val * 16 + HexDigit(ch);
        seen := seen + 1;
        if seen > 4 { return; }
        tok := tok + [ch];
        continue;
      }
      if ch == ':' {
        curtok := p;
        if seen == 0 {
          if colonp >= 0 { return; }
          colonp := tp;
          continue;
        } else if p == |src| {
          return;
        }
        if tp + 2 > 16 { return; }
        Store(tmp, tp, val, tok);
        tp, seen, val, tok := tp + 2, 0, 0, "";
        continue;
      }
      if ch == '.' && tp + 4 <= 16 {
        var rc, quad := ParseV4(src[curtok..]);
        Exact4(src[curtok..], quad);
        if rc == 0 {
          ghost var before := tmp[..tp];
          PutQuad(tmp, tp, quad);
          tp, seen, val, tok := tp + 4, 0, 0, "";
          ok := true;
          return;
        }
      }
      return;
    }
    ok := true;
  }

  method PutQuad(tmp: array<byte>, tp: nat, quad: seq<byte>)
    requires tmp.Length == 16 && tp + 4 <= 16 && |quad| == 4
    modifies tmp
    ensures tmp[..tp + 4] == old(tmp[..tp]) + quad && tmp[tp + 4..] == old(tmp[tp + 4..])
  {
    tmp[tp], tmp[tp + 1], tmp[tp + 2], tmp[tp + 3] := quad[0], quad[1], quad[2], quad[3];
    assert tmp[..tp + 4] == tmp[..tp] + [tmp[tp], tmp[tp + 1], tmp[tp + 2], tmp[tp + 3]];
  }

  /** Lines 283-291: the shift by hand; no byte is overwritten before it has been moved. */
  method Shift(tmp: array<byte>, tp: nat, colonp: nat)
    requires tmp.Length == 16 && colonp <= tp < 16 && ZeroFrom(tmp[..], tp)
    modifies tmp
    ensures tmp[..] == old(tmp[..colonp]) + Zeros(16 - tp) + old(tmp[colonp..tp])
  {
    var n := tp - colonp;
    var i := 1;
    while i <= n
      invariant 1 <= i <= n + 1
      invariant forall j | 0 <= j < tp - (i - 1) :: tmp[j] == old(tmp[j])
      invariant forall j | tp - (i - 1) <= j < 16 - (i - 1) :: tmp[j] == 0
      invariant forall j | 16 - (i - 1) <= j < 16 :: tmp[j] == old(tmp[j - (16 - tp)])
    {
      tmp[16 - i] := tmp[colonp + n - i];
      tmp[colonp + n - i] := 0;
      i := i + 1;
    }
  }

  /** Lines 272-295 */
  method FinishText(tmp: array<byte>, tp0: nat, colonp: int, seen: nat, val: nat, ghost tok: string) returns (ok: bool)
    requires tmp.Length == 16 && tp0 <= 16 && -1 <= colonp <= tp0 && ZeroFrom(tmp[..], tp0)
    requires AllHex(tok) && seen == |tok| <= 4 && val == HexVal(tok)
    modifies tmp
    ensures if ok then Finish(old(tmp[..tp0]), colonp, tok) == Bytes(tmp[..])
        else Finish(old(tmp[..tp0]), colonp, tok) == Bad
  {
    var tp := tp0;
    if seen > 0 {
      if tp + 2 > 16 { return false; }
      Store(tmp, tp, val, tok);
      tp := tp + 2;
    }
    ok := true;
    if colonp >= 0 {
      if tp == 16 { return false; }
      ZerosBehind(tmp[..], tp);
      ghost var bs := tmp[..tp];
      assert tmp[..colonp] == bs[..colonp] && tmp[colonp..tp] == bs[colonp..];
      Shift(tmp, tp, colonp);
      tp := 16;
    }
    if tp != 16 { return false; }
    assert colonp < 0 ==> tmp[..] == tmp[..tp];
  }

  lemma ZerosBehind(bs: seq<byte>, k: nat)
    requires k <= |bs| && forall j | 0 <= j < |bs| - k :: bs[k..][j] == 0
    ensures ZeroFrom(bs, k)
  {
    forall j | k <= j < |bs| ensures bs[j] == 0 { assert bs[j] == bs[k..][j - k]; }
  }

  /** inet_pton6 on a C string. */
  method ParseV6(src: string) returns (rc: int, dst: seq<byte>)
    ensures if Pton6(src).Bytes? then rc == 0 && dst == Pton6(src).bytes else rc == UV_EINVAL
  {
    var tmp: array<byte> := new byte[16](_ => 0);
    var start := 0;
    if |src| > 0 && src[0] == ':' {
      start := 1;
      if |src| < 2 || src[1] != ':' { return UV_EINVAL, []; }
    }
    var ok, tp, colonp, seen, val;
    ghost var tok;
    ok, tp, colonp, seen, val, tok := ScanText(src, start, tmp);
    if !ok { return UV_EINVAL, []; }
    ok := FinishText(tmp, tp, colonp, seen, val, tok);
    if !ok { return UV_EINVAL, []; }
    return 0, tmp[..];
  }

  // ---------- inet_ntop6 ----------

  function Pair(h: int, l: int): (w: nat)
    requires 0 <= h < 256 && 0 <= l < 256
    ensures w < 0x10000 && w / 256 == h && w % 256 == l
  {
    h * 256 + l
  }

  function Word(a: seq<byte>, i: nat): nat
    requires |a| == 16 && i < 8
  {
    Pair(a[2 * i], a[2 * i + 1])
  }

  function HexChar(d: nat): (c: char)
    requires d < 16
    ensures IsHex(c) && HexDigit(c) == d && c == "0123456789abcdef"[d]
  {
    if d < 10 then '0' + d as char else 'a' + (d - 10) as char
  }

  /** "%x" */
  function HexText(w: nat): (g: string)
    requires w < 0x10000
    ensures IsGroup(g) && HexVal(g) == w
    ensures |g| <= if w < 0x10 then 1 else if w < 0x100 then 2 else if w < 0x1000 then 3 else 4
    decreases w
  {
    if w < 16 then [HexChar(w)]
    else
      var front := HexText(w / 16);
      assert (front + [HexChar(w % 16)])[..|front|] == front;
      front + [HexChar(w % 16)]
  }

  /** The eight words. */
  function Values(a: seq<byte>): (vs: seq<nat>)
    requires |a| == 16
    ensures |vs| == 8 && forall i | 0 <= i < 8 :: vs[i] == Word(a, i)
  {
    seq(8, i requires 0 <= i < 8 => Word(a, i))
  }

  predicate ZeroRun(vs: seq<nat>, b: nat, l: nat) {
    match b + l <= |vs|
    case true => forall k | b <= k < b + l :: vs[k] == 0
    case false => false
  }

  /** The leftmost of the longest runs of at least two zero words, or base -1 if there is none:
      sections 4.2.2 and 4.2.3 of RFC 5952. */
  ghost predicate IsBest(vs: seq<nat>, base: int, len: nat) {
    if base < 0 then base == -1 && forall b: nat, l: nat | ZeroRun(vs, b, l) :: l < 2
    else len >= 2 && ZeroRun(vs, base, len)
         && forall b: nat, l: nat | ZeroRun(vs, b, l) :: l < len || (l == len && base <= b)
  }

  /** Every run that ends by `end` is shorter than the best, or as long and not before it. */
  ghost predicate BestUpTo(vs: seq<nat>, end: nat, base: int, len: nat) {
    match if base < 0 then base == -1 && len == 0 else ZeroRun(vs, base, len) && len > 0 && base + len <= end
    case false => false
    case true =>
      forall b: nat, l: nat | ZeroRun(vs, b, l) && l > 0 && b + l <= end :: l < len || (l == len && base <= b)
  }

  /** The run being read reaches up to i and began behind a word that is not zero. */
  ghost predicate Current(vs: seq<nat>, i: nat, base: int, len: nat) {
    match i <= |vs|
    case false => false
    case true =>
      if base < 0 then base == -1 && (i > 0 ==> vs[i - 1] != 0)
      else ZeroRun(vs, base, len) && len > 0 && base + len == i && (base > 0 ==> vs[base - 1] != 0)
  }

  /** Closing the current run keeps the best one right. */
  lemma {:induction false} CloseRun(vs: seq<nat>, i: nat, cur: int, curLen: nat, base: int, len: nat)
    requires cur >= 0 && Current(vs, i, cur, curLen) && BestUpTo(vs, cur, base, len)
    ensures if base == -1 || curLen > len then BestUpTo(vs, i, cur, curLen) else BestUpTo(vs, i, base, len)
  {
    forall b: nat, l: nat | ZeroRun(vs, b, l) && l > 0 && b + l <= i && b + l > cur ensures l <= curLen && cur <= b {
      assert cur > 0 ==> vs[cur - 1] != 0;
    }
  }

  lemma {:induction false} Longer(vs: seq<nat>, i: nat, cur: int, curLen: nat)
    requires Current(vs, i, cur, curLen) && i < |vs| && vs[i] == 0
    ensures if cur == -1 then Current(vs, i + 1, i, 1) else Current(vs, i + 1, cur, curLen + 1)
  {
    if cur >= 0 { assert forall k | cur <= k < i :: vs[k] == 0; }
  }

  /** Lines 88-99: one word. */
  method NextWord(vs: seq<nat>, i: nat, cur0: int, curLen0: nat, base0: int, len0: nat)
      returns (cur: int, curLen: nat, base: int, len: nat)
    requires i < |vs| && Current(vs, i, cur0, curLen0) && BestUpTo(vs, if cur0 < 0 then i else cur0, base0, len0)
    ensures Current(vs, i + 1, cur, curLen) && BestUpTo(vs, if cur < 0 then i + 1 else cur, base, len)
  {
    cur, curLen, base, len := cur0, curLen0, base0, len0;
    if vs[i] == 0 {
      Longer(vs, i, cur, curLen);
      if cur == -1 { cur, curLen := i, 1; } else { curLen := curLen + 1; }
    } else {
      if cur != -1 {
        CloseRun(vs, i, cur, curLen, base, len);
        if base == -1 || curLen > len { base, len := cur, curLen; }
        cur := -1;
      }
      SkipNonZero(vs, i, base, len);
    }
  }

  /** Lines 83-106 */
  method FindRun(words: seq<nat>) returns (base: int, len: nat)
    ensures IsBest(words, base, len)
    ensures base >= 0 ==> len >= 2 && ZeroRun(words, base, len)
    ensures forall b: nat, l: nat | ZeroRun(words, b, l) && l >= 2 ::
        base >= 0 && (l < len || (l == len && base <= b))
  {
    base, len := -1, 0;
    var cur: int, curLen: nat := -1, 0;
    var i := 0;
    while i < |words|
      invariant i <= |words| && Current(words, i, cur, curLen)
      invariant BestUpTo(words, if cur < 0 then i else cur, base, len)
    {
      cur, curLen, base, len := NextWord(words, i, cur, curLen, base, len);
      i := i + 1;
    }
    if cur != -1 {
      CloseRun(words, i, cur, curLen, base, len);
      if base == -1 || curLen > len { base, len := cur, curLen; }
    }
    BestOfAll(words, base, len);
    if base != -1 && len < 2 { base := -1; }
  }

  lemma {:induction false} BestOfAll(vs: seq<nat>, base: int, len: nat)
    requires BestUpTo(vs, |vs|, base, len)
    ensures IsBest(vs, if len < 2 then -1 else base, len)
  {
    forall b: nat, l: nat | ZeroRun(vs, b, l) ensures l == 0 || l < len || (l == len && base <= b) {}
  }

  lemma {:induction false} SkipNonZero(vs: seq<nat>, i: nat, base: int, len: nat)
    requires i < |vs| && vs[i] != 0 && BestUpTo(vs, i, base, len)
    ensures BestUpTo(vs, i + 1, base, len)
  {
    forall b: nat, l: nat | ZeroRun(vs, b, l) && l > 0 && b + l <= i + 1 ensures b + l <= i {
      assert vs[i] != 0;
    }
  }

  /** The eight words, printed. */
  function Words(a: seq<byte>): (ws: seq<string>)
    requires |a| == 16
    ensures |ws| == 8 && GroupsOk(ws) && forall i | 0 <= i < 8 :: ws[i] == HexText(Word(a, i))
  {
    seq(8, i requires 0 <= i < 8 => HexText(Word(a, i)))
  }

  /** Group k spells bytes 2k and 2k + 1. */
  ghost predicate Matches(ws: seq<string>, a: seq<byte>) {
    match |ws| == 8 && |a| == 16 && GroupsOk(ws)
    case true => forall k | 0 <= k < 8 :: TwoBytes(ws[k]) == [a[2 * k], a[2 * k + 1]]
    case false => false
  }

  lemma {:induction false} WordsMatch(a: seq<byte>)
    requires |a| == 16
    ensures Matches(Words(a), a)
  {
  }

  lemma {:induction false} SliceBytes(ws: seq<string>, a: seq<byte>, i: nat, j: nat)
    requires Matches(ws, a) && i <= j <= 8
    ensures GroupsOk(ws[i..j]) && GroupBytes(ws[i..j]) == a[2 * i..2 * j]
    decreases j
  {
    if i < j {
      SliceBytes(ws, a, i, j - 1);
      WordAt(ws, a, j - 1);
      SliceGrows(ws, i, j - 1);
      TwoMore(a, 2 * i, 2 * (j - 1));
    }
  }

  lemma {:induction false} WordAt(ws: seq<string>, a: seq<byte>, k: nat)
    requires Matches(ws, a) && k < 8
    ensures IsGroup(ws[k]) && TwoBytes(ws[k]) == [a[2 * k], a[2 * k + 1]]
  {
  }

  lemma {:induction false} SliceGrows(ws: seq<string>, i: nat, j: nat)
    requires i <= j < |ws| && GroupsOk(ws[i..j]) && IsGroup(ws[j])
    ensures GroupsOk(ws[i..j + 1]) && GroupBytes(ws[i..j + 1]) == GroupBytes(ws[i..j]) + TwoBytes(ws[j])
  {
    assert ws[i..j + 1] == ws[i..j] + [ws[j]];
    BytesGrow(ws[i..j], ws[j]);
  }

  lemma {:induction false} TwoMore(a: seq<byte>, i: nat, j: nat)
    requires i <= j && j + 2 <= |a|
    ensures a[i..j + 2] == a[i..j] + [a[j], a[j + 1]]
  {
  }

  /** Whether the last four bytes are printed as an IPv4 address. */
  predicate AsV4(a: seq<byte>, base: int, len: nat)
    requires |a| == 16
  {
    base == 0 && (len == 6 || (len == 5 && Word(a, 5) == 0xffff))
  }

  predicate RunFits(base: int, len: nat) { -1 <= base && (base >= 0 ==> base + len <= 8 && len >= 2) }

  /** The form that is printed for an address with these words and this best run. */
  function CanonOf(a: seq<byte>, ws: seq<string>, base: int, len: nat): Form
    requires |a| == 16 && |ws| == 8 && RunFits(base, len)
  {
    if base < 0 then Form(ws[..7], -1, Hex(ws[7]))
    else if AsV4(a, base, len) then Form(ws[len..6], 0, Quad(a[12..]))
    else if base + len == 8 then Form(ws[..base], base, Nothing)
    else Form(ws[..base] + ws[base + len..7], base, Hex(ws[7]))
  }

  function Canon(a: seq<byte>, base: int, len: nat): Form
    requires |a| == 16 && RunFits(base, len)
  {
    CanonOf(a, Words(a), base, len)
  }

  lemma {:induction false} Assoc(a: seq<byte>, b: seq<byte>, c: seq<byte>)
    ensures a + b + c == a + (b + c)
  {
  }

  lemma {:induction false} BytesJoin(gs: seq<string>, hs: seq<string>)
    requires GroupsOk(gs) && GroupsOk(hs)
    ensures GroupsOk(gs + hs) && GroupBytes(gs + hs) == GroupBytes(gs) + GroupBytes(hs)
    decreases |hs|
  {
    if hs == [] {
      assert gs + hs == gs;
    } else {
      var front, h := hs[..|hs| - 1], hs[|hs| - 1];
      BytesJoin(gs, front);
      BytesGrow(gs + front, h);
      assert gs + hs == gs + front + [h];
      Assoc(GroupBytes(gs), GroupBytes(front), TwoBytes(h));
    }
  }

  lemma {:induction false} ZeroWord(a: seq<byte>, b: nat, l: nat, k: nat)
    requires |a| == 16 && ZeroRun(Values(a), b, l) && b <= k < b + l
    ensures a[2 * k] == 0 && a[2 * k + 1] == 0
  {
    assert Values(a)[k] == Word(a, k);
  }

  lemma {:induction false} ZeroBytes(a: seq<byte>, b: nat, l: nat)
    requires |a| == 16 && ZeroRun(Values(a), b, l)
    ensures a[2 * b..2 * (b + l)] == Zeros(2 * l)
  {
    var t := a[2 * b..2 * (b + l)];
    forall k | 0 <= k < |t| ensures t[k] == 0 {
      ZeroWord(a, b, l, b + k / 2);
      assert k == 2 * (k / 2) || k == 2 * (k / 2) + 1;
    }
  }

  predicate Spells(f: Form, a: seq<byte>) { match Valid(f) case true => Denotes(f) == a case false => false }

  /** A form from its bytes. */
  lemma {:induction false} FormBytes(gs: seq<string>, gap: int, last: Last, bs: seq<byte>)
    requires GroupsOk(gs) && LastOk(last) && -1 <= gap <= |gs| && (last == Nothing ==> gap == |gs|)
    requires GroupBytes(gs) + LastBytes(last) == bs && if gap < 0 then |bs| == 16 else |bs| <= 14
    ensures Spells(Form(gs, gap, last), if gap < 0 then bs else bs[..2 * gap] + Zeros(16 - |bs|) + bs[2 * gap..])
  {
  }

  lemma {:induction false} Splice(left: seq<byte>, right: seq<byte>, mid: seq<byte>)
    ensures (left + right)[..|left|] + mid + (left + right)[|left|..] == left + mid + right
  {
    assert (left + right)[..|left|] == left && (left + right)[|left|..] == right;
  }

  /** Zeros in the middle of the bytes of some groups. */
  lemma {:induction false} GapBytes(gs: seq<string>, gap: nat, last: Last, left: seq<byte>, right: seq<byte>)
    requires GroupsOk(gs) && LastOk(last) && gap <= |gs| && (last == Nothing ==> gap == |gs|)
    requires GroupBytes(gs) + LastBytes(last) == left + right && |left| == 2 * gap && |left + right| <= 14
    ensures Spells(Form(gs, gap, last), left + Zeros(16 - |left + right|) + right)
  {
    FormBytes(gs, gap, last, left + right);
    Splice(left, right, Zeros(16 - |left + right|));
  }

  /** The printed form is valid and denotes the address. */
  lemma {:induction false} CanonDenotes(a: seq<byte>, base: int, len: nat)
    requires |a| == 16 && RunFits(base, len) && (base >= 0 ==> ZeroRun(Values(a), base, len))
    ensures Spells(Canon(a, base, len), a)
  {
    WordsMatch(a);
    if base >= 0 { ZeroBytes(a, base, len); }
    CanonOfDenotes(a, Words(a), base, len);
  }

  lemma {:induction false} CanonOfDenotes(a: seq<byte>, ws: seq<string>, base: int, len: nat)
    requires Matches(ws, a) && RunFits(base, len) && (base >= 0 ==> a[2 * base..2 * (base + len)] == Zeros(2 * len))
    ensures Spells(CanonOf(a, ws, base, len), a)
  {
    if base < 0 {
      CanonOfFull(a, ws);
    } else if AsV4(a, base, len) {
      CanonOfV4(a, ws, len);
    } else if base + len == 8 {
      CanonOfEnd(a, ws, base, len);
    } else {
      CanonOfMiddle(a, ws, base, len);
    }
  }

  lemma {:induction false} CanonOfFull(a: seq<byte>, ws: seq<string>)
    requires Matches(ws, a)
    ensures Spells(Form(ws[..7], -1, Hex(ws[7])), a)
  {
    TwoMore(a, 14, 14);
    SliceBytes(ws, a, 0, 7);
    CanonFull(a, ws[..7], ws[7]);
  }

  lemma {:induction false} CanonOfV4(a: seq<byte>, ws: seq<string>, len: nat)
    requires Matches(ws, a) && 5 <= len <= 6 && a[0..2 * len] == Zeros(2 * len)
    ensures Spells(Form(ws[len..6], 0, Quad(a[12..])), a)
  {
    SliceBytes(ws, a, len, 6);
    assert a[..2 * len] == a[0..2 * len];
    CanonV4(a, len, ws[len..6]);
  }

  lemma {:induction false} CanonOfEnd(a: seq<byte>, ws: seq<string>, base: nat, len: nat)
    requires Matches(ws, a) && len >= 2 && base + len == 8 && a[2 * base..2 * (base + len)] == Zeros(2 * len)
    ensures Spells(Form(ws[..base], base, Nothing), a)
  {
    SliceBytes(ws, a, 0, base);
    CanonEnd(a, base, ws[..base]);
  }

  lemma {:induction false} CanonOfMiddle(a: seq<byte>, ws: seq<string>, base: nat, len: nat)
    requires Matches(ws, a) && len >= 2 && base + len < 8 && a[2 * base..2 * (base + len)] == Zeros(2 * len)
    ensures Spells(Form(ws[..base] + ws[base + len..7], base, Hex(ws[7])), a)
  {
    TwoMore(a, 14, 14);
    SliceBytes(ws, a, 0, base);
    SliceBytes(ws, a, base + len, 7);
    CanonMiddle(a, base, len, ws[..base], ws[base + len..7], Hex(ws[7]));
  }

  lemma {:induction false} CanonFull(a: seq<byte>, gs: seq<string>, g: string)
    requires |a| == 16 && GroupsOk(gs) && IsGroup(g) && GroupBytes(gs) == a[0..14] && TwoBytes(g) == a[14..16]
    ensures Spells(Form(gs, -1, Hex(g)), a)
  {
    assert a == a[0..14] + a[14..16];
    FormBytes(gs, -1, Hex(g), a);
  }

  lemma {:induction false} CanonV4(a: seq<byte>, len: nat, gs: seq<string>)
    requires |a| == 16 && 5 <= len <= 6 && a[..2 * len] == Zeros(2 * len) && GroupsOk(gs)
        && GroupBytes(gs) == a[2 * len..12]
    ensures Spells(Form(gs, 0, Quad(a[12..])), a)
  {
    var bs, zs := a[2 * len..12] + a[12..], a[..2 * len];
    Front0(zs, bs);
    GapBytes(gs, 0, Quad(a[12..]), [], bs);
    CutEnd(a, 2 * len);
  }

  lemma {:induction false} Front0(zs: seq<byte>, bs: seq<byte>)
    ensures [] + bs == bs && [] + zs + bs == zs + bs
  {
  }

  lemma {:induction false} CutEnd(a: seq<byte>, i: nat)
    requires |a| == 16 && i <= 12
    ensures a == a[..i] + (a[i..12] + a[12..])
  {
  }

  lemma {:induction false} CanonEnd(a: seq<byte>, base: nat, gs: seq<string>)
    requires |a| == 16 && base <= 6 && a[2 * base..16] == Zeros(16 - 2 * base) && GroupsOk(gs) && |gs| == base
        && GroupBytes(gs) == a[0..2 * base]
    ensures Spells(Form(gs, base, Nothing), a)
  {
    var left := a[0..2 * base];
    assert left + [] == left;
    GapBytes(gs, base, Nothing, left, []);
    assert a == left + a[2 * base..16] + [];
  }

  lemma {:induction false} CanonMiddle(a: seq<byte>, base: nat, len: nat, gs: seq<string>, hs: seq<string>, last: Last)
    requires |a| == 16 && len >= 2 && base + len < 8 && a[2 * base..2 * (base + len)] == Zeros(2 * len)
    requires GroupsOk(gs) && GroupsOk(hs) && LastOk(last) && last != Nothing && |gs| == base
    requires GroupBytes(gs) == a[0..2 * base] && GroupBytes(hs) == a[2 * (base + len)..14]
        && LastBytes(last) == a[14..16]
    ensures Spells(Form(gs + hs, base, last), a)
  {
    var left, right, tail := a[0..2 * base], a[2 * (base + len)..14], a[14..16];
    BytesJoin(gs, hs);
    assert left + right + tail == left + (right + tail);
    GapBytes(gs + hs, base, last, left, right + tail);
    Cut(a, 2 * base, 2 * (base + len));
  }

  lemma {:induction false} Cut(a: seq<byte>, i: nat, j: nat)
    requires |a| == 16 && i <= j <= 14
    ensures a == a[0..i] + a[i..j] + (a[j..14] + a[14..16])
  {
  }

  // ---------- Printing ----------

  /** What has been written when the loop has seen i words and no IPv4 ending. */
  function Printed(ws: seq<string>, base: int, len: nat, i: nat): string
    requires i <= |ws|
  {
    if i == 0 then ""
    else if base >= 0 && base <= i - 1 < base + len then Printed(ws, base, len, i - 1) + if i - 1 == base then ":"
        else ""
    else Printed(ws, base, len, i - 1) + (if i - 1 != 0 then ":" else "") + ws[i - 1]
  }

  lemma {:induction false} ColonsGrow(ws: seq<string>, i: nat, j: nat)
    requires i <= j < |ws|
    ensures Colons(ws[i..j + 1]) == Colons(ws[i..j]) + ws[j] + ":"
  {
    assert ws[i..j + 1][..j - i] == ws[i..j];
  }

  /** In front of the run, and everywhere if there is none. */
  lemma {:induction false} PrintedFront(ws: seq<string>, base: int, len: nat, i: nat)
    requires 1 <= i <= |ws| && (base >= 0 ==> i <= base)
    ensures Printed(ws, base, len, i) + ":" == Colons(ws[0..i])
  {
    ColonsGrow(ws, 0, i - 1);
    if i > 1 { PrintedFront(ws, base, len, i - 1); }
  }

  /** Text and colon of what stands in front of the run. */
  function Before(ws: seq<string>, base: nat): string
    requires base <= |ws|
  {
    (if base == 0 then ":" else "") + Colons(ws[0..base])
  }

  /** Inside the run only one colon is written. */
  lemma {:induction false} PrintedRun(ws: seq<string>, base: nat, len: nat, i: nat)
    requires base < i <= base + len <= |ws|
    ensures Printed(ws, base, len, i) == Before(ws, base)
    decreases i
  {
    if i == base + 1 {
      if base > 0 { PrintedFront(ws, base, len, base); }
    } else {
      PrintedRun(ws, base, len, i - 1);
    }
  }

  lemma {:induction false} PrintedBehind(ws: seq<string>, base: nat, len: nat, i: nat)
    requires 0 < len && base + len <= i <= |ws|
    ensures Printed(ws, base, len, i) + ":" == Before(ws, base) + ":" + Colons(ws[base + len..i])
    decreases i
  {
    if i == base + len {
      PrintedRun(ws, base, len, i);
    } else {
      PrintedBehind(ws, base, len, i - 1);
      ColonsGrow(ws, base + len, i - 1);
      OneMoreWord(Before(ws, base) + ":", Colons(ws[base + len..i - 1]), ws[i - 1]);
    }
  }

  lemma {:induction false} OneMoreWord(x: string, c: string, w: string)
    ensures x + c + w + ":" == x + (c + w + ":")
  {
  }

  /** The text the function ends up with. */
  function FinalText(a: seq<byte>, ws: seq<string>, base: int, len: nat): string
    requires |a| == 16 && |ws| == 8
  {
    if AsV4(a, base, len) then Printed(ws, base, len, 6) + ":" + Ntop4(a[12..])
    else Printed(ws, base, len, 8) + if base >= 0 && base + len == 8 then ":" else ""
  }

  lemma {:induction false} LeadMiddle(left: seq<string>, right: seq<string>, gap: nat)
    requires |left| == gap
    ensures Lead(left + right, gap) == (if gap == 0 then ":" else "") + Colons(left) + ":" + Colons(right)
  {
    assert (left + right)[..gap] == left && (left + right)[gap..] == right;
  }

  lemma {:induction false} FinalIsCanon(a: seq<byte>, ws: seq<string>, base: int, len: nat)
    requires |a| == 16 && |ws| == 8 && RunFits(base, len) && GroupsOk(ws)
    ensures var f := CanonOf(a, ws, base, len);
        LastOk(f.last) && -1 <= f.gap <= |f.groups|
        && FinalText(a, ws, base, len) == Lead(f.groups, f.gap) + LastText(f.last)
  {
    if base < 0 {
      FinalFull(ws, base, len);
    } else if AsV4(a, base, len) {
      FinalV4(ws, len);
    } else if base + len == 8 {
      FinalEnd(ws, base, len);
    } else {
      FinalMiddle(ws, base, len);
    }
  }

  lemma {:induction false} FinalFull(ws: seq<string>, base: int, len: nat)
    requires |ws| == 8 && base < 0
    ensures Printed(ws, base, len, 8) == Lead(ws[..7], -1) + ws[7]
  {
    PrintedFront(ws, base, len, 7);
    assert ws[0..7] == ws[..7];
  }

  lemma {:induction false} FinalV4(ws: seq<string>, len: nat)
    requires |ws| == 8 && 5 <= len <= 6
    ensures Printed(ws, 0, len, 6) + ":" == Lead(ws[len..6], 0)
  {
    PrintedBehind(ws, 0, len, 6);
    LeadMiddle([], ws[len..6], 0);
    assert [] + ws[len..6] == ws[len..6];
    assert ws[0..0] == [];
  }

  lemma {:induction false} FinalEnd(ws: seq<string>, base: nat, len: nat)
    requires |ws| == 8 && len >= 2 && base + len == 8
    ensures Printed(ws, base, len, 8) + ":" == Lead(ws[..base], base) + ""
  {
    PrintedRun(ws, base, len, 8);
    LeadMiddle(ws[..base], [], base);
    assert ws[..base] + [] == ws[..base] && ws[0..base] == ws[..base];
  }

  lemma {:induction false} FinalMiddle(ws: seq<string>, base: nat, len: nat)
    requires |ws| == 8 && len >= 2 && base + len < 8
    ensures Printed(ws, base, len, 8) == Lead(ws[..base] + ws[base + len..7], base) + ws[7]
  {
    PrintedBehind(ws, base, len, 7);
    LeadMiddle(ws[..base], ws[base + len..7], base);
    assert ws[0..base] == ws[..base];
  }

  lemma {:induction false} PrintedLength(ws: seq<string>, base: int, len: nat, i: nat)
    requires i <= |ws| && GroupsOk(ws)
    ensures |Printed(ws, base, len, i)| <= if base >= 0 && base + len <= i && len >= 2 then 5 * i - 8 else 5 * i
    ensures 0 < i ==> |Printed(ws, base, len, i)| <= 5 * i - 1
    ensures 0 <= base < i <= base + len ==> |Printed(ws, base, len, i)| <= 5 * base + 1
    decreases i
  {
    if i > 0 { PrintedLength(ws, base, len, i - 1); }
  }

  /** The words as the code computes them, lines 80-82. */
  method WordsOf(a: seq<byte>) returns (words: seq<nat>)
    requires |a| == 16
    ensures words == Values(a)
  {
    words := [];
    var i := 0;
    while i < 8
      invariant i <= 8 && words == Values(a)[..i]
    {
      words := words + [Pair(a[2 * i], a[2 * i + 1])];
      i := i + 1;
    }
  }

  lemma {:induction false} FinalLength(a: seq<byte>, ws: seq<string>, base: int, len: nat)
    requires |a| == 16 && |ws| == 8 && GroupsOk(ws) && RunFits(base, len)
    ensures |FinalText(a, ws, base, len)| + 1 <= 40
    ensures AsV4(a, base, len) ==> |Printed(ws, base, len, 6)| <= 22
  {
    PrintedLength(ws, base, len, 6);
    PrintedLength(ws, base, len, 8);
  }

  /** Lines 114-133: one word that is not in the run. */
  method AppendWord(src: seq<byte>, words: seq<nat>, base: int, len: nat, i: nat, tmp0: string)
      returns (tmp: string, last: bool)
    requires |src| == 16 && words == Values(src) && RunFits(base, len) && i < 8
        && !(base >= 0 && base <= i < base + len)
    requires tmp0 == Printed(Words(src), base, len, i)
    ensures last <==> i == 6 && AsV4(src, base, len)
    ensures tmp == if last then FinalText(src, Words(src), base, len) else Printed(Words(src), base, len, i + 1)
  {
    FinalLength(src, Words(src), base, len);
    tmp, last := tmp0, false;
    if i != 0 { tmp := tmp + ":"; } else { assert tmp + "" == tmp; }
    // Word 6 is inside a run of seven, so the middle case never applies here.
    var w5, w7 := words[5], words[7];
    if i == 6 && base == 0 && (len == 6 || (len == 7 && w7 != 1) || (len == 5 && w5 == 0xffff)) {
      var err, quad := PrintV4(src[12..], 46 - |tmp|);
      tmp := tmp + quad;
      last := true;
      return;
    }
    tmp := tmp + HexText(words[i]);
  }

  /** Lines 111-138: formats the words around the best run. */
  method FormatV6(src: seq<byte>, words: seq<nat>, base: int, len: nat) returns (tmp: string)
    requires |src| == 16 && words == Values(src) && RunFits(base, len)
    ensures tmp == FinalText(src, Words(src), base, len)
  {
    tmp := "";
    var i := 0;
    while i < 8
      invariant i <= 8 && tmp == Printed(Words(src), base, len, i) && (i > 6 ==> !AsV4(src, base, len))
    {
      if base != -1 && base <= i < base + len {
        if i == base { tmp := tmp + ":"; } else { assert tmp + "" == tmp; }
      } else {
        var last;
        tmp, last := AppendWord(src, words, base, len, i, tmp);
        if last { return; }
      }
      i := i + 1;
    }
    if base != -1 && base + len == 8 { tmp := tmp + ":"; } else { assert tmp + "" == tmp; }
  }

  // ---------- The text, from the bytes ----------

  /** The groups are joined by colons. */
  function Joined(ws: seq<string>): string
    requires ws != []
  {
    if |ws| == 1 then ws[0] else Joined(ws[..|ws| - 1]) + ":" + ws[|ws| - 1]
  }

  lemma {:induction false} JoinedColons(ws: seq<string>)
    requires ws != []
    ensures Joined(ws) + ":" == Colons(ws)
  {
    if |ws| > 1 { JoinedColons(ws[..|ws| - 1]); }
  }

  /** An IPv4-mapped address, section 2.5.5.2 of RFC 4291. */
  predicate Mapped(a: seq<byte>)
    requires |a| == 16
  {
    (forall k | 0 <= k < 10 :: a[k] == 0) && a[10] == 0xff && a[11] == 0xff
  }

  /** An IPv4-compatible address, section 2.5.5.1, whose word 6 is not zero. */
  predicate Compatible(a: seq<byte>)
    requires |a| == 16
  {
    (forall k | 0 <= k < 12 :: a[k] == 0) && (a[12] != 0 || a[13] != 0)
  }

  /** The first n words are zero, and the next one is not. */
  predicate Starts(vs: seq<nat>, n: nat) {
    match |vs| == 8 && n < 8
    case true => (forall k | 0 <= k < n :: vs[k] == 0) && vs[n] != 0
    case false => false
  }

  /** A run of more than four words at the start is the one elided. */
  lemma {:induction false} RunAtStart(vs: seq<nat>, n: nat, base: int, len: nat)
    requires Starts(vs, n) && 5 <= n && IsBest(vs, base, len)
    ensures base == 0 && len == n
  {
    assert ZeroRun(vs, 0, n);
  }

  lemma {:induction false} ZeroPairs(a: seq<byte>, n: nat)
    requires |a| == 16 && n < 8 && (forall k | 0 <= k < 2 * n :: a[k] == 0) && (a[2 * n] != 0 || a[2 * n + 1] != 0)
    ensures Starts(Values(a), n)
  {
    forall k | 0 <= k < n ensures Values(a)[k] == 0 { assert a[2 * k] == 0 && a[2 * k + 1] == 0; }
    assert Values(a)[n] == Word(a, n);
  }

  lemma {:induction false} V4Lead(gs: seq<string>)
    ensures Lead(gs, 0) == "::" + Colons(gs)
  {
    LeadMiddle([], gs, 0);
    assert [] + gs == gs;
  }

  lemma {:induction false} DottedText(a: seq<byte>, len: nat)
    requires |a| == 16 && 5 <= len <= 6 && AsV4(a, 0, len) && Valid(Canon(a, 0, len))
    ensures Text(Canon(a, 0, len)) == "::" + Colons(Words(a)[len..6]) + Ntop4(a[12..])
  {
    V4Lead(Words(a)[len..6]);
  }

  lemma {:induction false} MappedText(a: seq<byte>, base: int, len: nat)
    requires |a| == 16 && Mapped(a) && IsBest(Values(a), base, len)
    requires RunFits(base, len) && Valid(Canon(a, base, len))
    ensures Text(Canon(a, base, len)) == "::ffff:" + Ntop4(a[12..])
  {
    ZeroPairs(a, 5);
    RunAtStart(Values(a), 5, base, len);
    DottedText(a, 5);
    FfffText();
    var ws := Words(a);
    assert ws[5] == "ffff" && ws[5..6] == ["ffff"];
    assert Colons(["ffff"]) == Colons([]) + "ffff" + ":";
  }

  lemma {:induction false} FfffText()
    ensures HexText(0xffff) == "ffff"
  {
    assert HexText(0xf) == "f";
    assert HexText(0xff) == HexText(0xf) + "f";
    assert HexText(0xfff) == HexText(0xff) + "f";
  }

  lemma {:induction false} CompatibleText(a: seq<byte>, base: int, len: nat)
    requires |a| == 16 && Compatible(a) && IsBest(Values(a), base, len)
    requires RunFits(base, len) && Valid(Canon(a, base, len))
    ensures Text(Canon(a, base, len)) == "::" + Ntop4(a[12..])
  {
    ZeroPairs(a, 6);
    RunAtStart(Values(a), 6, base, len);
    DottedText(a, 6);
    NoGroups(Words(a), Ntop4(a[12..]));
  }

  lemma {:induction false} NoGroups(ws: seq<string>, quad: string)
    requires |ws| == 8
    ensures "::" + Colons(ws[6..6]) + quad == "::" + quad
  {
    assert ws[6..6] == [];
  }

  /** Lower-case hex digits and colons. */
  predicate Plain(s: string) { forall k | 0 <= k < |s| :: '0' <= s[k] <= '9' || 'a' <= s[k] <= 'f' || s[k] == ':' }

  lemma {:induction false} PlainHex(w: nat)
    requires w < 0x10000
    ensures Plain(HexText(w))
    decreases w
  {
    if w >= 16 { PlainHex(w / 16); }
  }

  lemma {:induction false} PlainColons(ws: seq<string>)
    requires forall k | 0 <= k < |ws| :: Plain(ws[k])
    ensures Plain(Colons(ws))
  {
    if ws != [] { PlainColons(ws[..|ws| - 1]); }
  }

  /** Only those two kinds of address have the dotted ending. */
  lemma {:induction false} DottedOnly(a: seq<byte>, base: int, len: nat)
    requires |a| == 16 && IsBest(Values(a), base, len) && AsV4(a, base, len)
    ensures Mapped(a) || Compatible(a)
  {
    var vs := Values(a);
    ZeroBytes(a, 0, len);
    assert a[0..2 * len] == Zeros(2 * len);
    forall k | 0 <= k < 2 * len ensures a[k] == 0 { assert a[0..2 * len][k] == 0; }
    if len == 6 {
      LongerRun(vs, base, len);
      assert vs[6] == Word(a, 6);
    }
  }

  lemma {:induction false} LongerRun(vs: seq<nat>, base: int, len: nat)
    requires |vs| == 8 && IsBest(vs, base, len) && base == 0 && len == 6
    ensures vs[6] != 0
  {
    var longer := ZeroRun(vs, 0, 7);
    assert ZeroRun(vs, 0, 6) && (vs[6] == 0 ==> longer);
  }

  lemma {:induction false} PlainJoin(a: string, b: string)
    requires Plain(a) && Plain(b)
    ensures Plain(a + b)
  {
  }

  lemma {:induction false} PlainLead(gs: seq<string>, gap: int)
    requires -1 <= gap <= |gs| && forall k | 0 <= k < |gs| :: Plain(gs[k])
    ensures Plain(Lead(gs, gap))
  {
    if gap < 0 {
      PlainColons(gs);
    } else {
      PlainColons(gs[..gap]);
      PlainColons(gs[gap..]);
      PlainJoin(if gap == 0 then ":" else "", Colons(gs[..gap]));
    }
  }

  lemma {:induction false} NotDotted(a: seq<byte>, base: int, len: nat)
    requires |a| == 16 && !Mapped(a) && !Compatible(a) && IsBest(Values(a), base, len)
    ensures !AsV4(a, base, len)
  {
    if AsV4(a, base, len) { DottedOnly(a, base, len); }
  }

  lemma {:induction false} CanonParts(a: seq<byte>, ws: seq<string>, base: int, len: nat)
    requires |a| == 16 && |ws| == 8 && RunFits(base, len) && !AsV4(a, base, len)
    ensures var f := CanonOf(a, ws, base, len);
      (forall k | 0 <= k < |f.groups| :: f.groups[k] in ws) && !f.last.Quad? && (f.last.Hex? ==> f.last.group in ws)
  {
  }

  lemma {:induction false} PlainWords(a: seq<byte>)
    requires |a| == 16
    ensures forall k | 0 <= k < 8 :: Plain(Words(a)[k])
  {
    forall k | 0 <= k < 8 ensures Plain(Words(a)[k]) { PlainHex(Word(a, k)); }
  }

  /** Every other address is printed in lower-case hex, without a dot. */
  lemma {:induction false} PlainText(a: seq<byte>, base: int, len: nat)
    requires |a| == 16 && !Mapped(a) && !Compatible(a) && IsBest(Values(a), base, len)
    requires RunFits(base, len) && Valid(Canon(a, base, len))
    ensures Plain(Text(Canon(a, base, len)))
  {
    NotDotted(a, base, len);
    PlainWords(a);
    CanonParts(a, Words(a), base, len);
    PlainForm(Words(a), Canon(a, base, len));
  }

  lemma {:induction false} PlainForm(ws: seq<string>, f: Form)
    requires (forall k | 0 <= k < |ws| :: Plain(ws[k])) && Valid(f) && !f.last.Quad?
    requires (forall k | 0 <= k < |f.groups| :: f.groups[k] in ws) && (f.last.Hex? ==> f.last.group in ws)
    ensures Plain(Text(f))
  {
    forall k | 0 <= k < |f.groups| ensures Plain(f.groups[k]) {
      var j :| 0 <= j < |ws| && ws[j] == f.groups[k];
    }
    PlainLead(f.groups, f.gap);
  }

  predicate NoZeroPair(vs: seq<nat>) { forall k | 0 <= k < |vs| - 1 :: vs[k] != 0 || vs[k + 1] != 0 }

  /** Without two zero words in a row all eight words are printed, joined by colons. */
  lemma {:induction false} FullText(a: seq<byte>, base: int, len: nat)
    requires |a| == 16 && NoZeroPair(Values(a)) && IsBest(Values(a), base, len)
    requires RunFits(base, len) && Valid(Canon(a, base, len))
    ensures Text(Canon(a, base, len)) == Joined(Words(a))
  {
    var ws := Words(a);
    RunHasPair(Values(a), base, len);
    JoinedColons(ws[..7]);
    assert Joined(ws) == Joined(ws[..7]) + ":" + ws[7];
  }

  lemma {:induction false} RunHasPair(vs: seq<nat>, base: int, len: nat)
    requires |vs| == 8 && IsBest(vs, base, len)
    ensures base >= 0 ==> !NoZeroPair(vs)
  {
    if base >= 0 { assert vs[base] == 0 && vs[base + 1] == 0; }
  }

  /** Otherwise the words in front of the run elided and those behind it stand around "::", unless the ending is
      dotted. */
  lemma {:induction false} GapText(a: seq<byte>, base: int, len: nat)
    requires |a| == 16 && !Mapped(a) && !Compatible(a) && base >= 0 && IsBest(Values(a), base, len)
    requires RunFits(base, len) && Valid(Canon(a, base, len))
    ensures Text(Canon(a, base, len)) == Around(Words(a)[..base]) + "::" + Around(Words(a)[base + len..])
  {
    NotDotted(a, base, len);
    GapParts(Words(a), base, len);
  }

  function Around(ws: seq<string>): string { if ws == [] then "" else Joined(ws) }

  lemma {:induction false} GapParts(ws: seq<string>, base: nat, len: nat)
    requires |ws| == 8 && len >= 2 && base + len <= 8
    ensures var out := Around(ws[..base]) + "::" + Around(ws[base + len..]);
      if base + len == 8 then out == Lead(ws[..base], base) + ""
      else out == Lead(ws[..base] + ws[base + len..7], base) + ws[7]
  {
    var left := ws[..base];
    LeftPart(left);
    if base + len == 8 {
      LeadMiddle(left, [], base);
      assert left + [] == left;
      assert ws[8..] == [];
    } else {
      var middle := ws[base + len..7];
      LeadMiddle(left, middle, base);
      RightPart(ws, base + len);
      AroundGap(Around(left), (if left == [] then ":" else "") + Colons(left), Colons(middle), ws[7]);
    }
  }

  lemma {:induction false} AroundGap(x: string, l: string, c: string, g: string)
    requires x + "::" == l + ":"
    ensures x + "::" + (c + g) == l + ":" + c + g
  {
  }

  lemma {:induction false} LeftPart(left: seq<string>)
    ensures Around(left) + "::" == (if left == [] then ":" else "") + Colons(left) + ":"
  {
    if left != [] { JoinedColons(left); }
    assert Around(left) + "::" == Around(left) + ":" + ":";
  }

  lemma {:induction false} RightPart(ws: seq<string>, i: nat)
    requires |ws| == 8 && i < 8
    ensures Joined(ws[i..]) == Colons(ws[i..7]) + ws[7]
  {
    var right := ws[i..];
    if i < 7 {
      assert right[..|right| - 1] == ws[i..7];
      JoinedColons(ws[i..7]);
    }
  }

  /** inet_ntop6: the text always fits 40 bytes with its NUL, and is the canonical form. */
  method PrintV6(src: seq<byte>, size: nat) returns (rc: int, text: string, ghost base: int, ghost len: nat)
    requires |src| == 16
    ensures IsBest(Values(src), base, len) && RunFits(base, len) && Valid(Canon(src, base, len))
    ensures |Text(Canon(src, base, len))| + 1 <= 40
    ensures if |Text(Canon(src, base, len))| + 1 <= size then rc == 0 && text == Text(Canon(src, base, len))
        else rc == UV_ENOSPC
    ensures rc == 0 ==>
        if Mapped(src) then text == "::ffff:" + Ntop4(src[12..])
        else if Compatible(src) then text == "::" + Ntop4(src[12..])
        else Plain(text)
  {
    var words := WordsOf(src);
    var b, l := FindRun(words);
    base, len := b, l;
    CanonDenotes(src, b, l);
    if Mapped(src) {
      MappedText(src, b, l);
    } else if Compatible(src) {
      CompatibleText(src, b, l);
    } else {
      PlainText(src, b, l);
    }
    FinalIsCanon(src, Words(src), b, l);
    FinalLength(src, Words(src), b, l);
    var tmp := FormatV6(src, words, b, l);
    if |tmp| + 1 > size { rc, text := UV_ENOSPC, ""; return; }
    rc, text := 0, tmp;
  }

  /** Whatever inet_ntop6 prints, inet_pton6 reads back. */
  lemma {:induction false} RoundTrip6(a: seq<byte>, base: int, len: nat)
    requires |a| == 16 && IsBest(Values(a), base, len)
    ensures RunFits(base, len) && Valid(Canon(a, base, len)) && Pton6(Text(Canon(a, base, len))) == Bytes(a)
  {
    CanonDenotes(a, base, len);
    PtonComplete(Canon(a, base, len));
  }

  /** There is one best run, so one canonical text. */
  lemma {:induction false} OneBest(a: seq<byte>, b1: int, l1: nat, b2: int, l2: nat)
    requires |a| == 16 && IsBest(Values(a), b1, l1) && IsBest(Values(a), b2, l2)
    ensures b1 == b2 && (b1 >= 0 ==> l1 == l2)
  {
    if b1 >= 0 && b2 >= 0 {
      assert ZeroRun(Values(a), b1, l1) && ZeroRun(Values(a), b2, l2);
    }
  }
}
