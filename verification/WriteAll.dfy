/** uv__fs_write_all and uv__fs_buf_offset of src/unix/fs.c: writing a list of buffers against a
    descriptor that may accept any part, be interrupted, or fail.

    `Run` says, on values, what the loop does with a given descriptor; `Conserves` and `WritesAll`
    say what that means for the bytes. */
module WriteAll {
  import opened Common

  /** uv_buf_t: a stretch of memory. */
  datatype Buf = Buf(base: nat, len: nat)

  /** What one write call does: accepts some bytes, is interrupted, or fails with a negative code. */
  datatype Outcome = Wrote(n: nat) | Interrupted | Failed(code: int)

  /** One call that accepted something: the file offset it named, and the bytes. */
  datatype Call = Call(off: int, bytes: seq<byte>)

  predicate InMemory(mem: seq<byte>, bufs: seq<Buf>) {
    forall k | 0 <= k < |bufs| :: bufs[k].base + bufs[k].len <= |mem|
  }

  function Bytes(mem: seq<byte>, b: Buf): seq<byte>
    requires b.base + b.len <= |mem|
  {
    mem[b.base..b.base + b.len]
  }

  /** All buffers, one behind the other. */
  function Content(mem: seq<byte>, bufs: seq<Buf>): (all: seq<byte>)
    requires InMemory(mem, bufs)
    ensures |all| == Size(bufs)
  {
    if bufs == [] then [] else Bytes(mem, bufs[0]) + Content(mem, bufs[1..])
  }

  function Size(bufs: seq<Buf>): nat { if bufs == [] then 0 else bufs[0].len + Size(bufs[1..]) }

  /** The bytes in the first `iovmax` buffers, which is what one call is offered. */
  function Room(bufs: seq<Buf>, iovmax: nat): nat {
    if bufs == [] || iovmax == 0 then 0 else bufs[0].len + Room(bufs[1..], iovmax - 1)
  }

  /** What is left of the buffers behind the first n bytes. */
  function Drop(bufs: seq<Buf>, n: nat): seq<Buf> {
    if n == 0 || bufs == [] then bufs
    else if bufs[0].len <= n then Drop(bufs[1..], n - bufs[0].len)
    else [Buf(bufs[0].base + n, bufs[0].len - n)] + bufs[1..]
  }

  lemma {:induction false} RoomFits(bufs: seq<Buf>, iovmax: nat)
    ensures Room(bufs, iovmax) <= Size(bufs)
  {
    if bufs != [] && iovmax > 0 { RoomFits(bufs[1..], iovmax - 1); }
  }

  lemma {:induction false} PassWhole(mem: seq<byte>, bufs: seq<Buf>, n: nat)
    requires InMemory(mem, bufs) && bufs != [] && bufs[0].len <= n <= Size(bufs)
    ensures Content(mem, bufs)[n..] == Content(mem, bufs[1..])[n - bufs[0].len..]
  {
  }

  lemma {:induction false} CutFirst(mem: seq<byte>, bufs: seq<Buf>, n: nat)
    requires InMemory(mem, bufs) && bufs != [] && n < bufs[0].len
    ensures var cut := [Buf(bufs[0].base + n, bufs[0].len - n)] + bufs[1..];
      InMemory(mem, cut) && Content(mem, cut) == Content(mem, bufs)[n..]
  {
    var b, t := bufs[0], bufs[1..];
    var c := Buf(b.base + n, b.len - n);
    assert ([c] + t)[1..] == t;
    assert Bytes(mem, c) == Bytes(mem, b)[n..];
  }

  /** Dropping bytes drops exactly those bytes of the content. */
  lemma {:induction false} DropContent(mem: seq<byte>, bufs: seq<Buf>, n: nat)
    requires InMemory(mem, bufs) && n <= Size(bufs)
    ensures InMemory(mem, Drop(bufs, n)) && Content(mem, Drop(bufs, n)) == Content(mem, bufs)[n..]
  {
    if n > 0 {
      if bufs[0].len <= n {
        PassWhole(mem, bufs, n);
        DropContent(mem, bufs[1..], n - bufs[0].len);
      } else {
        CutFirst(mem, bufs, n);
      }
    }
  }

  // ---------- The descriptor ----------

  /** The descriptor once it has been asked again after every interruption. */
  function Settled(script: seq<Outcome>): (s: seq<Outcome>)
    ensures |s| <= |script| && (s != [] ==> s[0] != Interrupted)
  {
    if script != [] && script[0] == Interrupted then Settled(script[1..]) else script
  }

  /** What the settled call returns with `room` bytes on offer; a descriptor with nothing left to say fails. */
  function Answer(script: seq<Outcome>, room: nat): (a: int)
    ensures a <= room
  {
    var s := Settled(script);
    if s == [] then -5
    else if s[0].Wrote? then (if s[0].n < room then s[0].n else room)
    else if s[0].code < 0 then s[0].code
    else -1
  }

  /** What the descriptor will do after that. */
  function After(script: seq<Outcome>): (t: seq<Outcome>)
    ensures script != [] ==> |t| < |script|
  {
    var s := Settled(script);
    if s == [] then [] else s[1..]
  }

  // ---------- The loop on values ----------

  /** The calls that accepted something, the value returned, the buffers and the offset at the end,
      what the descriptor would do next, and its last answer if that ended the loop. */
  datatype Result = Result(log: seq<Call>, total: int, rest: seq<Buf>, off: int, script: seq<Outcome>, stop: int)

  function Moved(off: int, n: nat): int { if off >= 0 then off + n else off }

  function Run(mem: seq<byte>, bufs: seq<Buf>, off: int, iovmax: nat, script: seq<Outcome>): Result
    requires InMemory(mem, bufs)
    decreases |script|
  {
    if bufs == [] then Result([], 0, bufs, off, script, 1)
    else
      var n := Answer(script, Room(bufs, iovmax));
      if n <= 0 then Result([], n, bufs, off, After(script), n)
      else
        RoomFits(bufs, iovmax);
        DropContent(mem, bufs, n);
        Joined(Call(off, Content(mem, bufs)[..n]), Run(mem, Drop(bufs, n), Moved(off, n), iovmax, After(script)))
  }

  /** A call, and then everything that follows it; an error after it does not show in the value returned. */
  function Joined(c: Call, r: Result): Result {
    r.(log := [c] + r.log, total := |c.bytes| + if r.total > 0 then r.total else 0)
  }

  /** A run behind calls that have accepted `total` bytes. */
  function Behind(log: seq<Call>, total: nat, r: Result): Result {
    r.(log := log + r.log, total := if total == 0 then r.total else total + if r.total > 0 then r.total else 0)
  }

  lemma {:induction false} BehindOneMore(log: seq<Call>, total: nat, c: Call, r: Result)
    requires |c.bytes| > 0
    ensures Behind(log, total, Joined(c, r)) == Behind(log + [c], total + |c.bytes|, r)
  {
    assert log + ([c] + r.log) == log + [c] + r.log;
  }

  // ---------- What it means for the bytes ----------

  /** The bytes accepted over a list of calls. */
  function Accepted(log: seq<Call>): seq<byte> { if log == [] then [] else log[0].bytes + Accepted(log[1..]) }

  /** Every call continued where the bytes before it ended; a negative offset, which stands for the descriptor's own
      position, is passed on. */
  predicate InSequence(log: seq<Call>, off: int) {
    forall k | 0 <= k < |log| :: log[k].off == if off >= 0 then off + |Accepted(log[..k])| else off
  }

  /** Exactly the first `total` bytes of `all` have been accepted, each once and in order, and the
      offset and the remaining buffers match. */
  predicate Conserved(mem: seq<byte>, all: seq<byte>, off: int, r: Result) {
    var done := if r.total > 0 then r.total else 0;
    match done <= |all| && InMemory(mem, r.rest)
    case false => false
    case true =>
      && Accepted(r.log) == all[..done] && Content(mem, r.rest) == all[done..]
      && InSequence(r.log, off) && r.off == if off >= 0 then off + done else off
  }

  /** So it is whatever the descriptor does.  Buffers are left over only if the last answer was no
      progress, and that answer is returned if nothing was accepted. */
  lemma {:induction false} Conserves(mem: seq<byte>, bufs: seq<Buf>, off: int, iovmax: nat, script: seq<Outcome>)
    requires InMemory(mem, bufs)
    ensures var r := Run(mem, bufs, off, iovmax, script);
      && Conserved(mem, Content(mem, bufs), off, r)
      && (r.rest != [] ==> r.stop <= 0) && (r.log == [] && bufs != [] ==> r.total == r.stop <= 0)
    decreases |script|
  {
    if bufs != [] {
      var n, all := Answer(script, Room(bufs, iovmax)), Content(mem, bufs);
      if n > 0 {
        RoomFits(bufs, iovmax);
        DropContent(mem, bufs, n);
        Conserves(mem, Drop(bufs, n), Moved(off, n), iovmax, After(script));
        JoinedConserved(mem, all, off, n, Run(mem, Drop(bufs, n), Moved(off, n), iovmax, After(script)));
      }
    }
  }

  lemma {:induction false} SplitAgain(all: seq<byte>, n: nat, m: nat)
    requires n + m <= |all|
    ensures all[..n] + all[n..][..m] == all[..n + m] && all[n..][m..] == all[n + m..]
  {
  }

  lemma {:induction false} JoinedConserved(mem: seq<byte>, all: seq<byte>, off: int, n: nat, q: Result)
    requires 0 < n <= |all| && Conserved(mem, all[n..], Moved(off, n), q)
    ensures Conserved(mem, all, off, Joined(Call(off, all[..n]), q))
  {
    var done := if q.total > 0 then q.total else 0;
    assert ([Call(off, all[..n])] + q.log)[1..] == q.log;
    SplitAgain(all, n, done);
    OneMoreCall(Call(off, all[..n]), q.log, off);
  }

  lemma {:induction false} OneMoreCall(c: Call, log: seq<Call>, off: int)
    requires c.off == off && InSequence(log, if off >= 0 then off + |c.bytes| else off)
    ensures InSequence([c] + log, off)
  {
    var all := [c] + log;
    forall k | 0 <= k < |all| ensures all[k].off == if off >= 0 then off + |Accepted(all[..k])| else off {
      if k > 0 {
        assert all[..k][1..] == log[..k - 1] && all[k] == log[k - 1];
      }
    }
  }

  /** A write that fails at once, however often it is interrupted first, fails with its own code and changes nothing. */
  lemma {:induction false} FailsWith(mem: seq<byte>, bufs: seq<Buf>, off: int, iovmax: nat, script: seq<Outcome>,
      n: nat)
    requires InMemory(mem, bufs) && bufs != [] && n < |script| && script[n].Failed? && script[n].code < 0
    requires forall k | 0 <= k < n :: script[k] == Interrupted
    ensures Run(mem, bufs, off, iovmax, script)
        == Result([], script[n].code, bufs, off, script[n + 1..], script[n].code)
  {
    SettledAt(script, n);
  }

  lemma {:induction false} SettledAt(script: seq<Outcome>, n: nat)
    requires n < |script| && script[n] != Interrupted && forall k | 0 <= k < n :: script[k] == Interrupted
    ensures Settled(script) == script[n..]
    decreases n
  {
    if n > 0 {
      assert script[1..][n - 1] == script[n];
      SettledAt(script[1..], n - 1);
      assert script[1..][n - 1..] == script[n..];
    }
  }

  // ---------- When everything is written ----------

  /** The first `iovmax` buffers are empty, and others are not. */
  predicate Jammed(bufs: seq<Buf>, iovmax: nat) { Room(bufs, iovmax) == 0 && Size(bufs) > 0 }

  /** Somewhere `iovmax` empty buffers in a row stand before a non-empty one. */
  predicate Blocked(bufs: seq<Buf>, iovmax: nat) { bufs != [] && (Jammed(bufs, iovmax) || Blocked(bufs[1..], iovmax)) }

  /** A descriptor that always accepts something, though it may be interrupted first. */
  predicate Willing(script: seq<Outcome>) {
    script == [] || ((script[0] == Interrupted || (script[0].Wrote? && script[0].n > 0)) && Willing(script[1..]))
  }

  function Writes(script: seq<Outcome>): nat {
    if script == [] then 0 else (if script[0].Wrote? then 1 else 0) + Writes(script[1..])
  }

  lemma {:induction false} RoomGrows(bufs: seq<Buf>, m: nat)
    ensures Room(bufs, m) <= Room(bufs, m + 1)
  {
    if bufs != [] && m > 0 { RoomGrows(bufs[1..], m - 1); }
  }

  /** What a call accepts makes no difference to whether the list is blocked: it never ends inside
      a row of empty buffers. */
  lemma {:induction false} DropKeeps(bufs: seq<Buf>, n: nat, iovmax: nat)
    requires 0 < n <= Room(bufs, iovmax)
    ensures Blocked(Drop(bufs, n), iovmax) <==> Blocked(bufs, iovmax)
    ensures Size(Drop(bufs, n)) == Size(bufs) - n
  {
    var b, t := bufs[0], bufs[1..];
    RoomFits(bufs, iovmax);
    RoomGrows(t, iovmax - 1);
    if b.len < n {
      DropKeeps(t, n - b.len, iovmax);
    } else if n < b.len {
      assert ([Buf(b.base + n, b.len - n)] + t)[1..] == t;
    } else {
      assert Drop(t, 0) == t;
    }
  }

  predicate AllEmpty(bufs: seq<Buf>, i: nat, n: nat) { forall k | i <= k < i + n && k < |bufs| :: bufs[k].len == 0 }

  /** Somewhere `iovmax` empty buffers in a row stand, and behind them one that is not empty. */
  ghost predicate EmptyRow(bufs: seq<Buf>, iovmax: nat) {
    exists i: nat, j: nat :: i + iovmax <= j < |bufs| && AllEmpty(bufs, i, iovmax) && bufs[j].len > 0
  }

  lemma {:induction false} NoRoom(bufs: seq<Buf>, m: nat)
    ensures Room(bufs, m) == 0 <==> AllEmpty(bufs, 0, m)
  {
    if bufs != [] && m > 0 {
      NoRoom(bufs[1..], m - 1);
      if AllEmpty(bufs, 0, m) {
        assert bufs[0].len == 0;
        forall k | 0 <= k < m - 1 && k < |bufs| - 1 ensures bufs[1..][k].len == 0 { assert bufs[k + 1].len == 0; }
      }
    }
  }

  lemma {:induction false} SomeSize(bufs: seq<Buf>)
    ensures Size(bufs) > 0 <==> exists j | 0 <= j < |bufs| :: bufs[j].len > 0
  {
    if bufs != [] {
      SomeSize(bufs[1..]);
      if Size(bufs[1..]) > 0 {
        var j :| 0 <= j < |bufs[1..]| && bufs[1..][j].len > 0;
        assert bufs[j + 1].len > 0;
      }
      forall j | 0 < j < |bufs| && bufs[j].len > 0 ensures Size(bufs[1..]) > 0 { assert bufs[1..][j - 1].len > 0; }
    }
  }

  lemma {:induction false} JammedRow(bufs: seq<Buf>, iovmax: nat)
    ensures Jammed(bufs, iovmax) <==>
        exists j: nat :: iovmax <= j < |bufs| && AllEmpty(bufs, 0, iovmax) && bufs[j].len > 0
  {
    NoRoom(bufs, iovmax);
    SomeSize(bufs);
  }

  lemma {:induction false} RowBehind(bufs: seq<Buf>, i: nat, n: nat)
    requires bufs != []
    ensures AllEmpty(bufs, i + 1, n) <==> AllEmpty(bufs[1..], i, n)
  {
    if AllEmpty(bufs, i + 1, n) {
      forall k | i <= k < i + n && k < |bufs[1..]| ensures bufs[1..][k].len == 0 { assert bufs[k + 1].len == 0; }
    }
    if AllEmpty(bufs[1..], i, n) {
      forall k | i + 1 <= k < i + 1 + n && k < |bufs| ensures bufs[k].len == 0 { assert bufs[1..][k - 1].len == 0; }
    }
  }

  /** What the recursive test finds is such a row. */
  lemma {:induction false} BlockedIsRow(bufs: seq<Buf>, iovmax: nat)
    ensures Blocked(bufs, iovmax) <==> EmptyRow(bufs, iovmax)
  {
    if bufs != [] {
      JammedRow(bufs, iovmax);
      BlockedIsRow(bufs[1..], iovmax);
      if EmptyRow(bufs[1..], iovmax) {
        var i: nat, j: nat :| i + iovmax <= j < |bufs[1..]| && AllEmpty(bufs[1..], i, iovmax) && bufs[1..][j].len > 0;
        RowBehind(bufs, i, iovmax);
        assert bufs[j + 1].len > 0 && AllEmpty(bufs, i + 1, iovmax);
      }
      if EmptyRow(bufs, iovmax) {
        var i: nat, j: nat :| i + iovmax <= j < |bufs| && AllEmpty(bufs, i, iovmax) && bufs[j].len > 0;
        if i > 0 {
          RowBehind(bufs, i - 1, iovmax);
          assert bufs[1..][j - 1].len > 0 && AllEmpty(bufs[1..], i - 1, iovmax);
        }
      }
    }
  }

  lemma {:induction false} NothingBlocks(bufs: seq<Buf>, iovmax: nat)
    requires Size(bufs) == 0
    ensures !Blocked(bufs, iovmax)
  {
    if bufs != [] { NothingBlocks(bufs[1..], iovmax); }
  }

  lemma {:induction false} WillingAnswers(script: seq<Outcome>, room: nat)
    requires Willing(script) && Writes(script) > 0
    ensures 0 <= Answer(script, room) && (room > 0 ==> Answer(script, room) > 0)
    ensures Willing(After(script)) && Writes(After(script)) == Writes(script) - 1
  {
    if script[0] == Interrupted {
      assert Settled(script) == Settled(script[1..]);
      WillingAnswers(script[1..], room);
    }
  }

  /** A descriptor that always accepts something gets everything if and only if nowhere in the list
      `iovmax` empty buffers in a row stand before a non-empty one. */
  lemma {:induction false} WritesAll(mem: seq<byte>, bufs: seq<Buf>, off: int, iovmax: nat, script: seq<Outcome>)
    requires InMemory(mem, bufs) && iovmax > 0 && Willing(script) && Writes(script) > Size(bufs)
    ensures var r := Run(mem, bufs, off, iovmax, script);
      0 <= r.total <= Size(bufs) && (r.total == Size(bufs) <==> !EmptyRow(bufs, iovmax))
  {
    BlockedIsRow(bufs, iovmax);
    WritesUnlessBlocked(mem, bufs, off, iovmax, script);
  }

  lemma {:induction false} WritesUnlessBlocked(mem: seq<byte>, bufs: seq<Buf>, off: int, iovmax: nat,
      script: seq<Outcome>)
    requires InMemory(mem, bufs) && iovmax > 0 && Willing(script) && Writes(script) > Size(bufs)
    ensures var r := Run(mem, bufs, off, iovmax, script);
      0 <= r.total <= Size(bufs) && (r.total == Size(bufs) <==> !Blocked(bufs, iovmax))
    decreases |script|
  {
    if bufs != [] {
      var room := Room(bufs, iovmax);
      RoomFits(bufs, iovmax);
      WillingAnswers(script, room);
      if room > 0 {
        var n := Answer(script, room);
        DropContent(mem, bufs, n);
        DropKeeps(bufs, n, iovmax);
        WritesUnlessBlocked(mem, Drop(bufs, n), Moved(off, n), iovmax, After(script));
      } else if Size(bufs) == 0 {
        NothingBlocks(bufs, iovmax);
      }
    }
  }

  /** An input on which it stops early: one buffer a call, the first one empty. */
  lemma {:induction false} StopsEarly()
    ensures var mem: seq<byte>, bufs, script := [7], [Buf(0, 0), Buf(0, 1)], [Wrote(5), Wrote(5)];
      && InMemory(mem, bufs) && Willing(script) && Writes(script) > Size(bufs) && Blocked(bufs, 1)
      && Run(mem, bufs, -1, 1, script) == Result([], 0, bufs, -1, [Wrote(5)], 0)
  {
    var mem: seq<byte>, bufs, script := [7], [Buf(0, 0), Buf(0, 1)], [Wrote(5), Wrote(5)];
    assert bufs[1..] == [Buf(0, 1)] && [Buf(0, 1)][1..] == [];
    assert script[1..] == [Wrote(5)] && [Wrote(5)][1..] == [];
    assert Room(bufs, 1) == 0 + Room([Buf(0, 1)], 0);
  }

  // ---------- The program ----------

  /** uv__fs_buf_offset: moves on to the first buffer that is not done, cuts that one in place, and
      returns how many are done. */
  method BufOffset(bufs: array<Buf>, first: nat, size0: nat) returns (offset: nat)
    requires first <= bufs.Length && size0 <= Size(bufs[first..])
    modifies bufs
    ensures first + offset <= bufs.Length && bufs[..first] == old(bufs[..first])
    ensures bufs[first + offset..] == Drop(old(bufs[first..]), size0)
  {
    offset := 0;
    var size: nat := size0;
    while size > 0 && bufs[first + offset].len <= size
      invariant first + offset <= bufs.Length && bufs[..] == old(bufs[..])
      invariant size <= Size(bufs[first + offset..])
      invariant Drop(bufs[first + offset..], size) == Drop(old(bufs[first..]), size0)
      decreases bufs.Length - first - offset
    {
      assert bufs[first + offset..][1..] == bufs[first + offset + 1..];
      size := size - bufs[first + offset].len;
      offset := offset + 1;
    }
    if size > 0 {
      var k := first + offset;
      ghost var before, rest := bufs[..first], bufs[k..];
      bufs[k] := Buf(bufs[k].base + size, bufs[k].len - size);
      assert bufs[k..] == [bufs[k]] + rest[1..];
      assert bufs[..first] == before;
    }
  }

  /** uv_fs_t as uv__fs_write_all uses it, the descriptor's script of outcomes, and what reached it. */
  class Request {
    const mem: seq<byte>
    const bufs: array<Buf>
    var first: nat
    var nbufs: nat
    var off: int
    var script: seq<Outcome>
    ghost var log: seq<Call>

    ghost predicate Ready()
      reads this, bufs
    {
      first + nbufs <= bufs.Length && InMemory(mem, bufs[first..])
    }

    constructor (mem: seq<byte>, bufs: array<Buf>, off: int, script: seq<Outcome>)
      requires InMemory(mem, bufs[..])
      ensures Ready() && this.mem == mem && this.bufs == bufs && first == 0 && nbufs == bufs.Length
      ensures this.off == off && this.script == script && log == []
    {
      this.mem, this.bufs, this.off, this.script := mem, bufs, off, script;
      first, nbufs, log := 0, bufs.Length, [];
    }

    /** The next outcome that is not an interruption; a descriptor whose script has run out fails. */
    method NextOutcome() returns (o: Outcome)
      modifies this`script
      ensures script == After(old(script)) && o != Interrupted
      ensures o == if Settled(old(script)) == [] then Failed(-5) else Settled(old(script))[0]
    {
      o := Interrupted;
      while o == Interrupted
        invariant o == Interrupted ==> Settled(script) == Settled(old(script))
        invariant o != Interrupted ==> script == After(old(script))
        invariant o != Interrupted ==> o == if Settled(old(script)) == [] then Failed(-5) else Settled(old(script))[0]
        decreases |script|, o == Interrupted
      {
        o := Failed(-5);
        if script != [] {
          o := script[0];
          script := script[1..];
        }
      }
    }

    /** uv__fs_write with its retries: the first `nbufs` buffers are on offer, and what is accepted is a prefix. */
    method Write() returns (result: int)
      requires Ready()
      modifies this`script, this`log
      ensures script == After(old(script)) && result == Answer(old(script), Room(bufs[first..], nbufs))
      ensures result <= |Content(mem, bufs[first..])|
      ensures result <= 0 ==> log == old(log)
      ensures result > 0 ==> log == old(log) + [Call(off, Content(mem, bufs[first..])[..result])]
    {
      RoomFits(bufs[first..], nbufs);
      var o := NextOutcome();
      if o.Wrote? {
        var room := Offered(first, nbufs);
        result := if o.n < room then o.n else room;
        if result > 0 { log := log + [Call(off, Content(mem, bufs[first..])[..result])]; }
      } else {
        result := if o.code < 0 then o.code else -1;
      }
    }

    /** The bytes in the buffers handed to the call. */
    method Offered(i: nat, n: nat) returns (room: nat)
      requires i + n <= bufs.Length
      ensures room == Room(bufs[i..], n)
    {
      room := 0;
      var k: nat := n;
      while k > 0
        invariant k <= n && room == Room(bufs[i + k..], n - k)
      {
        k := k - 1;
        assert bufs[i + k..][1..] == bufs[i + k + 1..];
        room := room + bufs[i + k].len;
      }
    }

    /** The run from the start is the calls so far, `total` bytes, and the run from here. */
    ghost predicate Reached(whole: Result, iovmax: nat, total: nat)
      reads this`first, this`off, this`script, this`log, bufs
    {
      match first <= bufs.Length && InMemory(mem, bufs[first..])
      case false => false
      case true => whole == Behind(log, total, Run(mem, bufs[first..], off, iovmax, script))
    }

    /** Lines 1513-1533: one call and what follows it. */
    method WriteSome(left: nat, iovmax: nat, ghost whole: Result, ghost total: nat) returns (result: int)
      requires Reached(whole, iovmax, total) && left > 0 && first + left == bufs.Length && iovmax > 0
      modifies this`nbufs, this`first, this`off, this`script, this`log, bufs
      ensures result > 0 ==> Reached(whole, iovmax, total + result) && |script| < |old(script)|
      ensures result > 0 ==> nbufs <= left && first + left - nbufs == bufs.Length
      ensures result <= 0 ==> first <= bufs.Length && InMemory(mem, bufs[first..])
      ensures result <= 0 ==> whole == Behind(log, total, Result([], result, bufs[first..], off, script, result))
    {
      nbufs := if left > iovmax then iovmax else left;
      ghost var rest, before := bufs[first..], log;
      SameRoom(rest, nbufs, iovmax);
      RoomFits(rest, iovmax);
      result := Write();
      if result > 0 {
        ghost var c := Call(off, Content(mem, rest)[..result]);
        DropContent(mem, rest, result);
        BehindOneMore(before, total, c, Run(mem, Drop(rest, result), Moved(off, result), iovmax, script));
        Advance(result);
      }
    }

    static lemma {:induction false} SameRoom(bs: seq<Buf>, n: nat, iovmax: nat)
      requires n == if |bs| > iovmax then iovmax else |bs|
      ensures Room(bs, n) == Room(bs, iovmax)
    {
      if n > 0 { SameRoom(bs[1..], n - 1, iovmax - 1); }
    }

    /** Lines 1527-1532: past the bytes just accepted. */
    method Advance(result: nat)
      requires first <= bufs.Length && result <= Size(bufs[first..])
      modifies this`nbufs, this`first, this`off, bufs
      ensures off == Moved(old(off), result) && first == old(first) + nbufs <= bufs.Length
      ensures bufs[first..] == Drop(old(bufs[first..]), result)
    {
      if off >= 0 { off := off + result; }
      nbufs := BufOffset(bufs, first, result);
      first := first + nbufs;
    }

    /** uv__fs_write_all with iovecs of at most `iovmax` buffers does exactly what `Run` says. */
    method WriteAll(iovmax: nat) returns (total: int)
      requires Ready() && first == 0 && nbufs == bufs.Length && iovmax > 0 && log == []
      modifies this, bufs
      ensures InMemory(mem, old(bufs[..])) && first <= bufs.Length
      ensures var r := Run(mem, old(bufs[..]), old(off), iovmax, old(script));
        total == r.total && log == r.log && bufs[first..] == r.rest && off == r.off && script == r.script
    {
      var left: nat := nbufs;
      total := 0;
      assert bufs[0..] == bufs[..];
      ghost var whole := Run(mem, bufs[..], off, iovmax, script);
      assert [] + whole.log == whole.log;
      while left > 0
        invariant first + left == bufs.Length && 0 <= total && Reached(whole, iovmax, total)
        decreases |script|
      {
        var result := WriteSome(left, iovmax, whole, total);
        if result <= 0 {
          if total == 0 { total := result; }
          nbufs := 0;
          assert log + [] == log;
          return;
        }
        left := left - nbufs;
        total := total + result;
      }
      nbufs := 0;
      assert bufs[first..] == [] && log + [] == log;
    }
  }
}
