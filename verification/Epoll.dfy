/** The epoll command ring of src/unix/linux.c, against a kernel that runs submissions in order.

    `Direct` is the plain branch, one system call per command.  The ring collects commands, runs
    them in batches, and retries an ADD that found the descriptor watched as a MOD. */
module Epoll {
  import opened Arith
  import opened Common

  datatype Op = Add | Del | Mod

  datatype Cmd = Cmd(op: Op, fd: nat, mask: int)

  /** The watched descriptors and their event masks. */
  type Watched = map<nat, int>

  const EEXIST := -17
  const ENOENT := -2

  // ---------- The kernel ----------

  function Result(k: Watched, c: Cmd): int {
    match c.op
    case Add => if c.fd in k then EEXIST else 0
    case _ => if c.fd in k then 0 else ENOENT
  }

  function After(k: Watched, c: Cmd): Watched {
    if Result(k, c) != 0 then k else if c.op == Del then k - {c.fd} else k[c.fd := c.mask]
  }

  function RunMap(k: Watched, cs: seq<Cmd>): Watched
    decreases |cs|
  {
    if cs == [] then k else RunMap(After(k, cs[0]), cs[1..])
  }

  function Results(k: Watched, cs: seq<Cmd>): (rs: seq<int>)
    ensures |rs| == |cs|
    decreases |cs|
  {
    if cs == [] then [] else [Result(k, cs[0])] + Results(After(k, cs[0]), cs[1..])
  }

  // ---------- The direct branch ----------

  /** Lines 1222-1238: one command, or an abort. */
  function DirectOne(k: Watched, c: Cmd): Option<Watched> {
    if Result(k, c) == 0 then Some(After(k, c))
    else match c.op
      case Del => Some(k)
      case Add => Some(k[c.fd := c.mask])
      case Mod => None
  }

  function Direct(k: Watched, cs: seq<Cmd>): Option<Watched>
    decreases |cs|
  {
    if cs == [] then Some(k)
    else match DirectOne(k, cs[0])
      case None => None
      case Some(k') => Direct(k', cs[1..])
  }

  // ---------- A batch ----------

  /** What a flush does with the result of a command: nothing, retry, or abort. */
  predicate Fails(c: Cmd, res: int) { res != 0 && c.op == Mod }

  function Retry(c: Cmd, res: int): seq<Cmd> { if res != 0 && c.op == Add then [Cmd(Mod, c.fd, c.mask)] else [] }

  function Retries(cs: seq<Cmd>, rs: seq<int>): seq<Cmd>
    requires |cs| == |rs|
    decreases |cs|
  {
    if cs == [] then [] else Retry(cs[0], rs[0]) + Retries(cs[1..], rs[1..])
  }

  predicate NoneFails(cs: seq<Cmd>, rs: seq<int>)
    requires |cs| == |rs|
    decreases |cs|
  {
    cs == [] || (!Fails(cs[0], rs[0]) && NoneFails(cs[1..], rs[1..]))
  }

  /** On one descriptor, nothing but another ADD follows an ADD. */
  predicate Orderly(cs: seq<Cmd>) {
    forall i, j | 0 <= i < j < |cs| && cs[i].op == Add && cs[j].fd == cs[i].fd :: cs[j].op == Add
  }

  predicate OnlyAdds(cs: seq<Cmd>, fd: nat) { forall j | 0 <= j < |cs| && cs[j].fd == fd :: cs[j].op == Add }

  lemma {:induction false} OrderlyTail(cs: seq<Cmd>)
    requires Orderly(cs) && cs != []
    ensures Orderly(cs[1..]) && (cs[0].op == Add ==> OnlyAdds(cs[1..], cs[0].fd))
  {
    var t := cs[1..];
    forall i, j | 0 <= i < j < |t| && t[i].op == Add && t[j].fd == t[i].fd ensures t[j].op == Add {
      assert cs[i + 1] == t[i] && cs[j + 1] == t[j];
    }
    forall j | 0 <= j < |t| && t[j].fd == cs[0].fd && cs[0].op == Add ensures t[j].op == Add {
      assert cs[j + 1] == t[j];
    }
  }

  /** The mask of a watched descriptor does not matter to commands that only add it again. */
  lemma {:induction false} MaskAside(k: Watched, cs: seq<Cmd>, fd: nat, mask: int)
    requires fd in k && OnlyAdds(cs, fd)
    ensures RunMap(k[fd := mask], cs) == RunMap(k, cs)[fd := mask] && fd in RunMap(k, cs)
        && Results(k[fd := mask], cs) == Results(k, cs)
    decreases |cs|
  {
    if cs != [] {
      var c, t := cs[0], cs[1..];
      forall j | 0 <= j < |t| && t[j].fd == fd ensures t[j].op == Add { assert cs[j + 1] == t[j]; }
      assert After(k[fd := mask], c) == After(k, c)[fd := mask];
      MaskAside(After(k, c), t, fd, mask);
    }
  }

  /** A batch and then its retries come to the same as running the batch directly. */
  lemma {:induction false} BatchRefines(k: Watched, cs: seq<Cmd>)
    requires Orderly(cs) && Direct(k, cs).Some?
    ensures NoneFails(cs, Results(k, cs)) && Direct(RunMap(k, cs), Retries(cs, Results(k, cs))) == Direct(k, cs)
    decreases |cs|
  {
    if cs != [] {
      var c, t, rs := cs[0], cs[1..], Results(k, cs);
      OrderlyTail(cs);
      assert rs[1..] == Results(After(k, c), t);
      if Result(k, c) != 0 && c.op == Add {
        var k' := k[c.fd := c.mask];
        BatchRefines(k', t);
        MaskAside(k, t, c.fd, c.mask);
        var more := Retries(t, rs[1..]);
        assert ([Cmd(Mod, c.fd, c.mask)] + more)[1..] == more;
      } else {
        BatchRefines(After(k, c), t);
        assert [] + Retries(t, rs[1..]) == Retries(t, rs[1..]);
      }
    }
  }

  predicate AllMods(cs: seq<Cmd>) { forall j | 0 <= j < |cs| :: cs[j].op == Mod }

  lemma {:induction false} RetriesAreMods(cs: seq<Cmd>, rs: seq<int>)
    requires |cs| == |rs|
    ensures AllMods(Retries(cs, rs)) && |Retries(cs, rs)| <= |cs| && (AllMods(cs) ==> Retries(cs, rs) == [])
    decreases |cs|
  {
    if cs != [] { RetriesAreMods(cs[1..], rs[1..]); }
  }

  lemma {:induction false} DirectAppend(k: Watched, a: seq<Cmd>, b: seq<Cmd>)
    ensures Direct(k, a + b) == match Direct(k, a) case None => None case Some(k') => Direct(k', b)
    decreases |a|
  {
    if a == [] {
      assert a + b == b;
    } else {
      assert (a + b)[1..] == a[1..] + b;
      if DirectOne(k, a[0]).Some? { DirectAppend(DirectOne(k, a[0]).value, a[1..], b); }
    }
  }

  /** Counterexample outside `Orderly`: an ADD of a watched descriptor, and then a MOD of it. */
  lemma OrderMatters()
    ensures var k: Watched, cs := map[5 := 1], [Cmd(Add, 5, 2), Cmd(Mod, 5, 3)];
      Direct(k, cs) == Some(map[5 := 3]) && Direct(RunMap(k, cs), Retries(cs, Results(k, cs))) == Some(map[5 := 2])
  {
    var k: Watched, c, d := map[5 := 1], Cmd(Add, 5, 2), Cmd(Mod, 5, 3);
    var cs := [c, d];
    assert cs[1..] == [d] && [d][1..] == [];
    assert k[5 := 2] == map[5 := 2] && map[5 := 2][5 := 3] == map[5 := 3] && k[5 := 3] == map[5 := 3]
        && map[5 := 3][5 := 2] == map[5 := 2];
    assert Direct(k, cs) == Direct(map[5 := 2], [d]) && Direct(map[5 := 2], [d]) == Direct(map[5 := 3], []);
    assert RunMap(k, cs) == RunMap(k, [d]) == RunMap(map[5 := 3], []);
    assert Results(k, [d]) == [0] + Results(map[5 := 3], []);
    assert Results(k, cs) == [EEXIST] + [0];
    assert Retries(cs, [EEXIST, 0]) == [Cmd(Mod, 5, 2)] + Retries([d], [0]);
    assert Retries([d], [0]) == [] + Retries([], []);
    var r := Cmd(Mod, 5, 2);
    assert Retries(cs, Results(k, cs)) == [r] && [r][1..] == [];
    assert Direct(map[5 := 3], [r]) == Direct(map[5 := 2], []);
  }

  // ---------- Exactly which batches ----------

  function Entry(k: Watched, fd: nat): Option<int> { if fd in k then Some(k[fd]) else None }

  /** The direct branch leaves a descriptor alone that no command names. */
  lemma {:induction false} Unnamed(k: Watched, cs: seq<Cmd>, fd: nat)
    requires Direct(k, cs).Some? && forall j | 0 <= j < |cs| :: cs[j].fd != fd
    ensures Entry(Direct(k, cs).value, fd) == Entry(k, fd)
    decreases |cs|
  {
    if cs != [] {
      assert cs[0].fd != fd;
      forall j | 0 <= j < |cs[1..]| ensures cs[1..][j].fd != fd { assert cs[j + 1].fd != fd; }
      Unnamed(DirectOne(k, cs[0]).value, cs[1..], fd);
    }
  }

  /** And it does what the last command for a descriptor says: DEL leaves it unwatched, and ADD and MOD leave it
      watched with their mask, whatever came before. */
  lemma {:induction false} LastCommandWins(k: Watched, cs: seq<Cmd>, i: nat)
    requires Direct(k, cs).Some? && i < |cs| && forall j | i < j < |cs| :: cs[j].fd != cs[i].fd
    ensures Entry(Direct(k, cs).value, cs[i].fd) == if cs[i].op == Del then None else Some(cs[i].mask)
    decreases |cs|
  {
    var k', t := DirectOne(k, cs[0]).value, cs[1..];
    if i == 0 {
      forall j | 0 <= j < |t| ensures t[j].fd != cs[0].fd { assert cs[j + 1].fd != cs[0].fd; }
      Unnamed(k', t, cs[0].fd);
    } else {
      assert t[i - 1] == cs[i];
      forall j | i - 1 < j < |t| ensures t[j].fd != cs[i].fd { assert cs[j + 1].fd != cs[i].fd; }
      LastCommandWins(k', t, i - 1);
    }
  }

  /** Whether the descriptor is watched before command i, going back to the last command that named it. */
  predicate WatchedAt(watched: set<nat>, cs: seq<Cmd>, i: nat, fd: nat)
    requires i <= |cs|
  {
    if i == 0 then fd in watched
    else if cs[i - 1].fd == fd then cs[i - 1].op != Del
    else WatchedAt(watched, cs, i - 1, fd)
  }

  lemma {:induction false} PrefixWatched(watched: set<nat>, cs: seq<Cmd>, n: nat, i: nat, fd: nat)
    requires i <= n <= |cs|
    ensures WatchedAt(watched, cs[..n], i, fd) == WatchedAt(watched, cs, i, fd)
  {
    if i > 0 { PrefixWatched(watched, cs, n, i - 1, fd); }
  }

  lemma {:induction false} DirectLast(k: Watched, cs: seq<Cmd>)
    requires cs != []
    ensures Direct(k, cs) ==
        match Direct(k, cs[..|cs| - 1]) case None => None case Some(k') => DirectOne(k', cs[|cs| - 1])
  {
    var front, c := cs[..|cs| - 1], cs[|cs| - 1];
    assert cs == front + [c];
    DirectAppend(k, front, [c]);
    if Direct(k, front).Some? { assert [c][1..] == []; }
  }

  lemma {:induction false} WatchedIs(k: Watched, cs: seq<Cmd>, fd: nat)
    requires Direct(k, cs).Some?
    ensures fd in Direct(k, cs).value <==> WatchedAt(k.Keys, cs, |cs|, fd)
  {
    if cs != [] {
      var front := cs[..|cs| - 1];
      DirectLast(k, cs);
      WatchedIs(k, front, fd);
      PrefixWatched(k.Keys, cs, |front|, |front|, fd);
    }
  }

  /** The direct branch aborts in one case only, a MOD of a descriptor that is not watched. */
  lemma {:induction false} AbortsExactly(k: Watched, cs: seq<Cmd>)
    ensures Direct(k, cs) == None <==>
        exists i | 0 <= i < |cs| :: cs[i].op == Mod && !WatchedAt(k.Keys, cs, i, cs[i].fd)
  {
    if cs != [] {
      var front, last := cs[..|cs| - 1], |cs| - 1;
      DirectLast(k, cs);
      AbortsExactly(k, front);
      forall i | 0 <= i < last ensures WatchedAt(k.Keys, front, i, front[i].fd) == WatchedAt(k.Keys, cs, i, cs[i].fd) {
        PrefixWatched(k.Keys, cs, last, i, cs[i].fd);
      }
      if Direct(k, front).Some? {
        WatchedIs(k, front, cs[last].fd);
        PrefixWatched(k.Keys, cs, last, last, cs[last].fd);
        assert forall i | 0 <= i < last :: front[i] == cs[i];
      } else {
        var i :| 0 <= i < |front| && front[i].op == Mod && !WatchedAt(k.Keys, front, i, front[i].fd);
        assert cs[i] == front[i];
      }
    }
  }

  /** Whether an ADD among the commands finds the descriptor watched, when `watched` says whether it is now. */
  predicate Readded(cs: seq<Cmd>, fd: nat, watched: bool)
    decreases |cs|
  {
    if cs == [] then false
    else if cs[0].fd != fd then Readded(cs[1..], fd, watched)
    else match cs[0].op
      case Add => watched || Readded(cs[1..], fd, true)
      case Del => Readded(cs[1..], fd, false)
      case Mod => Readded(cs[1..], fd, watched)
  }

  /** The mask that the last of the commands asks for, if it leaves the descriptor watched. */
  function LastMask(cs: seq<Cmd>, fd: nat, now: Option<int>): Option<int>
    decreases |cs|
  {
    if cs == [] then now
    else LastMask(cs[1..], fd, if cs[0].fd != fd then now else if cs[0].op == Del then None else Some(cs[0].mask))
  }

  /** The last ADD that finds a descriptor watched must name the mask that the descriptor ends with. */
  predicate Settles(watched: set<nat>, cs: seq<Cmd>)
    decreases |cs|
  {
    if cs == [] then true
    else
      var c, t := cs[0], cs[1..];
      && (c.op == Add && c.fd in watched && !Readded(t, c.fd, true) ==> LastMask(t, c.fd, Some(c.mask)) == Some(c.mask))
      && Settles(if c.op == Del then watched - {c.fd} else watched + {c.fd}, t)
  }

  ghost predicate SameBut(a: Watched, b: Watched, fd: nat) {
    match a.Keys == b.Keys
    case true => forall x | x in a && x != fd :: a[x] == b[x]
    case false => false
  }

  lemma {:induction false} RunAside(a: Watched, b: Watched, cs: seq<Cmd>, fd: nat)
    requires SameBut(a, b, fd)
    ensures Results(a, cs) == Results(b, cs) && SameBut(RunMap(a, cs), RunMap(b, cs), fd)
    decreases |cs|
  {
    if cs != [] { RunAside(After(a, cs[0]), After(b, cs[0]), cs[1..], fd); }
  }

  predicate Mentions(cs: seq<Cmd>, fd: nat)
    decreases |cs|
  {
    cs != [] && (cs[0].fd == fd || Mentions(cs[1..], fd))
  }

  /** Retries settle the masks of the descriptors they name, and no others. */
  lemma {:induction false} ModsAside(a: Watched, b: Watched, rs: seq<Cmd>, fd: nat)
    requires SameBut(a, b, fd) && AllMods(rs)
    ensures Mentions(rs, fd) ==> Direct(a, rs) == Direct(b, rs) && (fd !in a ==> Direct(a, rs) == None)
    ensures !Mentions(rs, fd) && Direct(a, rs).Some? ==> Entry(Direct(a, rs).value, fd) == Entry(a, fd)
    decreases |rs|
  {
    if rs != [] {
      var c, t := rs[0], rs[1..];
      forall j | 0 <= j < |t| ensures t[j].op == Mod { assert rs[j + 1] == t[j]; }
      if c.fd in a {
        var a', b' := a[c.fd := c.mask], b[c.fd := c.mask];
        ModsAside(a', b', t, fd);
        if c.fd == fd { assert a' == b'; }
      }
    }
  }

  /** One descriptor through a batch: whether it is retried, and what each way of running makes of it. */
  lemma {:induction false} OneDescriptor(k: Watched, cs: seq<Cmd>, fd: nat)
    requires Direct(k, cs).Some?
    ensures Mentions(Retries(cs, Results(k, cs)), fd) <==> Readded(cs, fd, fd in k)
    ensures Entry(Direct(k, cs).value, fd) == LastMask(cs, fd, Entry(k, fd))
    ensures RunMap(k, cs).Keys == Direct(k, cs).value.Keys
    ensures !Readded(cs, fd, fd in k) ==> Entry(RunMap(k, cs), fd) == Entry(Direct(k, cs).value, fd)
    decreases |cs|
  {
    if cs != [] {
      var c, t, k1 := cs[0], cs[1..], DirectOne(k, cs[0]).value;
      assert Results(k, cs)[1..] == Results(After(k, c), t);
      OneDescriptor(k1, t, fd);
      RunAside(After(k, c), k1, t, c.fd);
      RetryFirst(c, Result(k, c), Retries(t, Results(k1, t)), fd);
    }
  }

  lemma {:induction false} RetryFirst(c: Cmd, res: int, more: seq<Cmd>, fd: nat)
    ensures Mentions(Retry(c, res) + more, fd) <==> (res != 0 && c.op == Add && c.fd == fd) || Mentions(more, fd)
  {
    if res != 0 && c.op == Add {
      assert (Retry(c, res) + more)[1..] == more;
    } else {
      assert Retry(c, res) + more == more;
    }
  }

  /** When a batch and its retries come to the same as running the batch directly: exactly when it settles. */
  lemma {:induction false} BatchExact(k: Watched, cs: seq<Cmd>)
    requires Direct(k, cs).Some?
    ensures NoneFails(cs, Results(k, cs))
    ensures Direct(RunMap(k, cs), Retries(cs, Results(k, cs))) == Direct(k, cs) <==> Settles(k.Keys, cs)
    decreases |cs|
  {
    if cs != [] {
      var c, t, k1 := cs[0], cs[1..], DirectOne(k, cs[0]).value;
      assert Results(k, cs)[1..] == Results(After(k, c), t);
      BatchExact(k1, t);
      RunAside(After(k, c), k1, t, c.fd);
      assert k1.Keys == (if c.op == Del then k.Keys - {c.fd} else k.Keys + {c.fd});
      var rs := Retries(t, Results(k1, t));
      if Result(k, c) != 0 && c.op == Add {
        assert ([Cmd(Mod, c.fd, c.mask)] + rs)[1..] == rs;
        RetriesAreMods(t, Results(k1, t));
        ReaddExact(k, c, t, k1, rs);
      } else {
        assert [] + rs == rs;
      }
    }
  }

  lemma {:induction false} ReaddExact(k: Watched, c: Cmd, t: seq<Cmd>, k1: Watched, rs: seq<Cmd>)
    requires c.fd in k && k1 == k[c.fd := c.mask] && Direct(k1, t).Some? && rs == Retries(t, Results(k1, t))
        && AllMods(rs)
    requires SameBut(RunMap(k, t), RunMap(k1, t), c.fd)
    ensures var r := RunMap(k, t);
      (if c.fd in r then Direct(r[c.fd := c.mask], rs) else None) == Direct(k1, t)
      <==>
      (!Readded(t, c.fd, true) ==> LastMask(t, c.fd, Some(c.mask)) == Some(c.mask))
      && Direct(RunMap(k1, t), rs) == Direct(k1, t)
  {
    var r, r1 := RunMap(k, t), RunMap(k1, t);
    OneDescriptor(k1, t, c.fd);
    ModsAside(r1, r1, rs, c.fd);
    if c.fd in r {
      var r2 := r[c.fd := c.mask];
      ModsAside(r2, r1, rs, c.fd);
      if c.fd in r1 && r1[c.fd] == c.mask { assert r2 == r1; }
    }
  }

  /** Batches in which nothing but another ADD follows an ADD always settle. */
  lemma {:induction false} OrderlySettles(k: Watched, cs: seq<Cmd>)
    requires Orderly(cs) && Direct(k, cs).Some?
    ensures Settles(k.Keys, cs)
  {
    BatchRefines(k, cs);
    BatchExact(k, cs);
  }

  lemma {:induction false} ModsSettle(watched: set<nat>, cs: seq<Cmd>)
    requires AllMods(cs)
    ensures Settles(watched, cs)
    decreases |cs|
  {
    if cs != [] {
      forall j | 0 <= j < |cs| - 1 ensures cs[1..][j].op == Mod { assert cs[j + 1] == cs[1..][j]; }
      ModsSettle(watched + {cs[0].fd}, cs[1..]);
    }
  }

  // ---------- The ring ----------

  const SIZE := 256

  /** A submission: the slot of its event, the operation, the descriptor, and the user data. */
  datatype Sqe = Sqe(addr: nat, op: Op, fd: nat, userData: nat)

  datatype Cqe = Cqe(res: int, userData: nat)

  function Code(op: Op): nat { match op case Add => 1 case Del => 2 case Mod => 3 }

  /** `op | slot << 2 | (int64_t) fd << 32` */
  function Pack(op: Op, slot: nat, fd: nat): nat
    requires slot < SIZE
  {
    Code(op) + slot * 4 + fd * 0x1_0000_0000
  }

  lemma {:induction false} Unpack(op: Op, slot: nat, fd: nat)
    requires slot < SIZE
    ensures var d := Pack(op, slot, fd); d % 4 == Code(op) && d / 4 % 256 == slot && d / 0x1_0000_0000 == fd
  {
    DivMod(fd, 0x1_0000_0000, slot * 4 + Code(op));
    DivMod(fd * 0x4000_0000 + slot, 4, Code(op));
    DivMod(fd * 0x40_0000, 256, slot);
  }

  function AddCount(cs: seq<Cmd>): nat {
    if cs == [] then 0 else AddCount(cs[..|cs| - 1]) + if cs[|cs| - 1].op == Add then 1 else 0
  }

  lemma {:induction false} NoAdds(cs: seq<Cmd>)
    requires AllMods(cs)
    ensures AddCount(cs) == 0
  {
    if cs != [] { NoAdds(cs[..|cs| - 1]); }
  }

  lemma {:induction false} SomeAdd(cs: seq<Cmd>, j: nat)
    requires j < |cs| && cs[j].op == Add
    ensures AddCount(cs) > 0
  {
    if j < |cs| - 1 { SomeAdd(cs[..|cs| - 1], j); }
  }

  /** The completions of commands that were queued from slot `head` on. */
  function Completions(cs: seq<Cmd>, head: nat, rs: seq<int>): (q: seq<Cqe>)
    requires |cs| == |rs|
    ensures |q| == |cs|
    decreases |cs|
  {
    if cs == [] then [] else [Cqe(rs[0], Pack(cs[0].op, head % SIZE, cs[0].fd))] + Completions(cs[1..], head + 1,
        rs[1..])
  }

  lemma {:induction false} OrderlyParts(a: seq<Cmd>, b: seq<Cmd>)
    requires Orderly(a + b)
    ensures Orderly(a) && Orderly(b)
  {
    forall i, j | 0 <= i < j < |a| && a[i].op == Add && a[j].fd == a[i].fd ensures a[j].op == Add {
      assert (a + b)[i] == a[i] && (a + b)[j] == a[j];
    }
    forall i, j | 0 <= i < j < |b| && b[i].op == Add && b[j].fd == b[i].fd ensures b[j].op == Add {
      assert (a + b)[|a| + i] == b[i] && (a + b)[|a| + j] == b[j];
    }
  }

  lemma {:induction false} ModsFirst(a: seq<Cmd>, b: seq<Cmd>)
    requires AllMods(a) && Orderly(b)
    ensures Orderly(a + b)
  {
    var t := a + b;
    forall i, j | 0 <= i < j < |t| && t[i].op == Add && t[j].fd == t[i].fd ensures t[j].op == Add {
      assert i >= |a| && t[i] == b[i - |a|] && t[j] == b[j - |a|];
    }
  }

  lemma {:induction false} ModsJoin(a: seq<Cmd>, b: seq<Cmd>)
    requires AllMods(a) && AllMods(b)
    ensures AllMods(a + b) && Orderly(a + b)
  {
  }

  /** The batch being handled: commands, results, the slot of the first, and the saved masks. */
  ghost predicate Batch(all: seq<Cmd>, rs: seq<int>, head: nat, masks: seq<int>) {
    && |all| == |rs| && |all| <= SIZE && |masks| == SIZE
    && (forall i | 0 <= i < |all| :: masks[(head + i) % SIZE] == all[i].mask)
    && (forall i | 0 <= i < |all| :: all[i].op == Add && rs[i] != 0 ==> rs[i] == EEXIST)
  }

  lemma {:induction false} AddResults(k: Watched, cs: seq<Cmd>, i: nat)
    requires i < |cs| && cs[i].op == Add
    ensures Results(k, cs)[i] == 0 || Results(k, cs)[i] == EEXIST
    decreases i
  {
    if i > 0 { AddResults(After(k, cs[0]), cs[1..], i - 1); }
  }

  lemma {:induction false} RetriesStep(all: seq<Cmd>, rs: seq<int>, head: nat, j: nat)
    requires |all| == |rs| && j < |all|
    ensures Retries(all[j..], rs[j..]) == Retry(all[j], rs[j]) + Retries(all[j + 1..], rs[j + 1..])
    ensures NoneFails(all[j..], rs[j..]) ==> !Fails(all[j], rs[j]) && NoneFails(all[j + 1..], rs[j + 1..])
    ensures Completions(all[j..], head + j, rs[j..]) ==
        [Cqe(rs[j], Pack(all[j].op, (head + j) % SIZE, all[j].fd))] + Completions(all[j + 1..], head + j + 1,
        rs[j + 1..])
  {
    assert all[j..][1..] == all[j + 1..] && rs[j..][1..] == rs[j + 1..];
  }

  lemma {:induction false} Exchange(k: Watched, p: seq<Cmd>, k': Watched, p': seq<Cmd>, rest: seq<Cmd>)
    requires Direct(k, p) == Direct(k', p')
    ensures Direct(k, p + rest) == Direct(k', p' + rest)
  {
    DirectAppend(k, p, rest);
    DirectAppend(k', p', rest);
  }

  /** The submission and completion rings of `ctl`, the array of prepared events, and the kernel behind them. */
  class Ctl {
    const sqe: array<Sqe>
    const events: array<int>
    var sqhead: nat
    var sqtail: nat
    var cq: seq<Cqe>
    var kernel: Watched
    ghost var pending: seq<Cmd>

    /** Slot by slot, what is queued; slots are taken in turn and none is reused before its submission. */
    ghost predicate Queued(j: nat)
      requires j < |pending| && sqe.Length == SIZE && events.Length == SIZE
      reads this`sqhead, this`pending, sqe, events
    {
      var slot, c := (sqhead + j) % SIZE, pending[j];
      sqe[slot] == Sqe(slot, c.op, c.fd, Pack(c.op, slot, c.fd)) && events[slot] == c.mask
    }

    ghost predicate Ring()
      reads this`sqhead, this`sqtail, this`pending, sqe, events
    {
      && sqe.Length == SIZE && events.Length == SIZE
      && sqhead <= sqtail && |pending| == sqtail - sqhead <= SIZE
      && forall j | 0 <= j < |pending| :: Queued(j)
    }

    ghost predicate Valid()
      reads this`sqhead, this`sqtail, this`pending, sqe, events
    {
      match Ring() case true => |pending| < SIZE case false => false
    }

    constructor (watched: Watched)
      ensures Valid() && pending == [] && cq == [] && kernel == watched && fresh(sqe) && fresh(events)
    {
      sqe := new Sqe[SIZE](_ => Sqe(0, Add, 0, 0));
      events := new int[SIZE](_ => 0);
      sqhead, sqtail, cq, kernel, pending := 0, 0, [], watched, [];
    }

    /** Lines 1240-1255: the next slot. */
    method Push(c: Cmd)
      requires Valid()
      modifies this`sqtail, this`pending, sqe, events
      ensures Ring() && pending == old(pending) + [c]
    {
      var slot := sqtail % SIZE;
      sqtail := sqtail + 1;
      events[slot] := c.mask;
      sqe[slot] := Sqe(slot, c.op, c.fd, Pack(c.op, slot, c.fd));
      pending := pending + [c];
      forall j | 0 <= j < |pending| ensures Queued(j) {
        if j < |pending| - 1 {
          assert old(Queued(j));
          OtherSlot(sqhead, |pending| - 1, j);
        }
      }
    }

    static lemma {:induction false} OtherSlot(head: nat, n: nat, j: nat)
      requires j < n < SIZE
      ensures (head + j) % SIZE != (head + n) % SIZE
    {
    }

    /** The kernel takes the oldest submission and runs it. */
    method RunOne()
      requires Ring() && pending != []
      modifies this`sqhead, this`cq, this`kernel, this`pending
      ensures Ring() && pending == old(pending)[1..] && sqhead == old(sqhead) + 1
      ensures var c := old(pending)[0];
        kernel == After(old(kernel), c)
            && cq == old(cq) + [Cqe(Result(old(kernel), c), Pack(c.op, old(sqhead) % SIZE, c.fd))]
    {
      assert Queued(0);
      var e := sqe[sqhead % SIZE];
      var c := Cmd(e.op, e.fd, events[e.addr]);
      cq := cq + [Cqe(Result(kernel, c), e.userData)];
      kernel := After(kernel, c);
      pending := pending[1..];
      sqhead := sqhead + 1;
      forall i | 0 <= i < |pending| ensures Queued(i) { assert old(Queued(i + 1)); }
    }

    /** io_uring_enter: the kernel takes everything queued and runs it in order. */
    method Enter()
      requires Ring() && cq == []
      modifies this`sqhead, this`cq, this`kernel, this`pending
      ensures Valid() && pending == [] && sqhead == sqtail
      ensures kernel == RunMap(old(kernel), old(pending))
      ensures cq == Completions(old(pending), old(sqhead), Results(old(kernel), old(pending)))
    {
      while sqhead != sqtail
        invariant Ring()
        invariant RunMap(kernel, pending) == RunMap(old(kernel), old(pending))
        invariant cq + Completions(pending, sqhead, Results(kernel, pending)) ==
            Completions(old(pending), old(sqhead), Results(old(kernel), old(pending)))
        decreases sqtail - sqhead
      {
        ghost var c, more := pending[0],
            Completions(pending[1..], sqhead + 1, Results(After(kernel, pending[0]), pending[1..]));
        Append(cq, Cqe(Result(kernel, c), Pack(c.op, sqhead % SIZE, c.fd)), more);
        RunOne();
      }
      assert cq + [] == cq;
    }

    static lemma {:induction false} Append(a: seq<Cqe>, x: Cqe, b: seq<Cqe>)
      ensures a + ([x] + b) == a + [x] + b
    {
    }

    // ---------- uv__epoll_ctl_flush and uv__epoll_ctl_prep ----------

    /** uv__epoll_ctl_prep with a ring. */
    method Prep(c: Cmd)
      requires Valid() && Settles(kernel.Keys, pending + [c]) && Direct(kernel, pending + [c]).Some?
          && (|pending| == SIZE - 1 ==> cq == [])
      modifies this, sqe, events
      ensures Valid() && Direct(kernel, pending) == Direct(old(kernel), old(pending) + [c]) && cq == old(cq)
      ensures pending == old(pending) + [c] || (AllMods(pending) && |pending| <= |old(pending)| + 1)
      ensures old(|pending|) < SIZE - 1 ==> pending == old(pending) + [c] && kernel == old(kernel)
      ensures old(|pending|) == SIZE - 1 && AllMods(old(pending) + [c]) ==> pending == []
      decreases AddCount(pending + [c]), 2
    {
      Push(c);
      if sqhead % SIZE == sqtail % SIZE {
        Flush();
      }
    }

    /** Completions from j on are still to be handled; the retries so far are queued. */
    ghost predicate Handling(all: seq<Cmd>, rs: seq<int>, head: nat, masks: seq<int>, j: nat)
      reads this`sqhead, this`sqtail, this`pending, this`cq, sqe, events
    {
      match Batch(all, rs, head, masks) && j <= |all|
      case false => false
      case true =>
        && Valid() && cq == Completions(all[j..], head + j, rs[j..]) && |pending| <= j && AllMods(pending)
        && NoneFails(all[j..], rs[j..]) && (AllMods(all) ==> pending == [])
    }

    /** Lines 1300-1326: one completion. */
    method HandleOne(ghost all: seq<Cmd>, ghost rs: seq<int>, ghost head: nat, ghost j: nat, oldevents: seq<int>)
      requires Handling(all, rs, head, oldevents, j) && j < |all|
      requires Direct(kernel, pending + Retries(all[j..], rs[j..])).Some?
      modifies this, sqe, events
      ensures Handling(all, rs, head, oldevents, j + 1)
      ensures Direct(kernel, pending + Retries(all[j + 1..], rs[j + 1..])) ==
          Direct(old(kernel), old(pending) + Retries(all[j..], rs[j..]))
      decreases AddCount(all), 0
    {
      RetriesStep(all, rs, head, j);
      Unpack(all[j].op, (head + j) % SIZE, all[j].fd);
      ghost var rest := Retries(all[j + 1..], rs[j + 1..]);
      assert [] + rest == rest;
      var cqe := cq[0];
      cq := cq[1..];
      if cqe.res == 0 { return; }
      var fd := cqe.userData / 0x1_0000_0000;
      var op := cqe.userData % 4;
      var oldslot := cqe.userData / 4 % 256;
      if op == 2 { return; }
      // Neither abort is reached: only an ADD is left, and it can only have found the descriptor watched.
      assert op == 1 && cqe.res == EEXIST;
      var c := Cmd(Mod, fd, oldevents[oldslot]);
      SomeAdd(all, j);
      ghost var p, k := pending, kernel;
      RetryFits(k, p, c, rest);
      Prep(c);
      Exchange(k, p + [c], kernel, pending, rest);
    }

    static lemma {:induction false} RetryFits(k: Watched, p: seq<Cmd>, c: Cmd, rest: seq<Cmd>)
      requires AllMods(p) && c.op == Mod && Direct(k, p + ([c] + rest)).Some?
      ensures Settles(k.Keys, p + [c]) && AllMods(p + [c]) && AddCount(p + [c]) == 0 && Direct(k, p + [c]).Some?
          && p + ([c] + rest) == p + [c] + rest
    {
      ModsJoin(p, [c]);
      ModsSettle(k.Keys, p + [c]);
      NoAdds(p + [c]);
      assert p + ([c] + rest) == p + [c] + rest;
      DirectAppend(k, p + [c], rest);
    }

    /** uv__epoll_ctl_flush: what it leaves queued, run directly, comes to what was queued, run directly. */
    method Flush()
      requires Ring() && pending != [] && cq == [] && Settles(kernel.Keys, pending) && Direct(kernel, pending).Some?
      modifies this, sqe, events
      ensures Valid() && cq == [] && AllMods(pending)
      ensures Direct(kernel, pending) == Direct(old(kernel), old(pending))
      ensures AllMods(old(pending)) ==> pending == []
      decreases AddCount(pending), 1
    {
      ghost var all, k, head := pending, kernel, sqhead;
      ghost var rs := Results(k, all);
      BatchExact(k, all);
      RetriesAreMods(all, rs);
      var oldevents := EnterAndSave();
      ghost var j := 0;
      assert all[0..] == all && rs[0..] == rs;
      assert [] + Retries(all, rs) == Retries(all, rs);
      while cq != []
        invariant Handling(all, rs, head, oldevents, j)
            && Direct(kernel, pending + Retries(all[j..], rs[j..])) == Direct(k, all)
        decreases |all| - j
      {
        HandleOne(all, rs, head, j, oldevents);
        j := j + 1;
      }
      assert pending + [] == pending;
    }

    /** Lines 1279-1292 */
    method EnterAndSave() returns (oldevents: seq<int>)
      requires Ring() && cq == []
      modifies this`sqhead, this`cq, this`kernel, this`pending
      ensures Valid() && pending == [] && kernel == RunMap(old(kernel), old(pending))
      ensures cq == Completions(old(pending), old(sqhead), Results(old(kernel), old(pending)))
      ensures Batch(old(pending), Results(old(kernel), old(pending)), old(sqhead), oldevents)
    {
      ghost var all, k, head := pending, kernel, sqhead;
      forall i | 0 <= i < |all| ensures events[(head + i) % SIZE] == all[i].mask { assert Queued(i); }
      forall i | 0 <= i < |all| && all[i].op == Add ensures Results(k, all)[i] == 0 || Results(k, all)[i] == EEXIST {
        AddResults(k, all, i);
      }
      Enter();
      oldevents := events[..];
    }

    /** The drain loops of uv__io_poll: two flushes always suffice, and then the kernel has what the
        direct branch would have given it, for every batch that settles. */
    method Drain() returns (flushes: nat)
      requires Valid() && cq == [] && Settles(kernel.Keys, pending) && Direct(kernel, pending).Some?
      modifies this, sqe, events
      ensures Valid() && cq == [] && pending == [] && flushes <= 2 && Some(kernel) == Direct(old(kernel), old(pending))
    {
      flushes := 0;
      while sqhead != sqtail
        invariant Valid() && cq == [] && Settles(kernel.Keys, pending) && flushes <= 2
            && Direct(kernel, pending) == Direct(old(kernel), old(pending))
        invariant flushes > 0 ==> AllMods(pending)
        invariant flushes > 1 ==> pending == []
        decreases 2 - flushes
      {
        Flush();
        ModsSettle(kernel.Keys, pending);
        flushes := flushes + 1;
      }
    }

    method PrepNext(cs: seq<Cmd>, i: nat)
      requires i < |cs| && Valid() && cq == [] && Orderly(pending + cs[i..]) && Direct(kernel, pending + cs[i..]).Some?
      modifies this, sqe, events
      ensures Valid() && cq == [] && Orderly(pending + cs[i + 1..])
          && Direct(kernel, pending + cs[i + 1..]) == Direct(old(kernel), old(pending) + cs[i..])
    {
      ghost var p, k, c, rest := pending, kernel, cs[i], cs[i + 1..];
      assert cs[i..] == [c] + rest && p + cs[i..] == p + [c] + rest;
      OrderlyParts(p + [c], rest);
      DirectAppend(k, p + [c], rest);
      OrderlySettles(k, p + [c]);
      Prep(cs[i]);
      Exchange(k, p + [c], kernel, pending, rest);
      if AllMods(pending) { ModsFirst(pending, rest); }
    }

    /** Any commands prepared one after the other and then drained, whatever batches they fall into. */
    method PrepAll(cs: seq<Cmd>) returns (flushes: nat)
      requires Valid() && pending == [] && cq == [] && Orderly(cs) && Direct(kernel, cs).Some?
      modifies this, sqe, events
      ensures Valid() && pending == [] && cq == [] && Some(kernel) == Direct(old(kernel), cs)
    {
      var i := 0;
      assert [] + cs == cs;
      while i < |cs|
        invariant i <= |cs| && Valid() && cq == [] && Orderly(pending + cs[i..])
            && Direct(kernel, pending + cs[i..]) == Direct(old(kernel), cs)
      {
        PrepNext(cs, i);
        i := i + 1;
      }
      assert pending + [] == pending;
      OrderlySettles(kernel, pending);
      flushes := Drain();
    }
  }
}
