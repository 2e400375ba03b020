/** The descriptor plumbing around fork in atf-c/detail/process.c. */
module Process {
  import opened Options

  /** An open file description; two descriptors refer to the same file when these are equal. */
  datatype File = File(id: nat)

  type Table = map<nat, File>

  const STDOUT := 1
  const STDERR := 2

  /** atf_process_stream_t */
  datatype Stream =
    | Capture
    | Connect(src: nat, tgt: nat)
    | Inherit
    | RedirectFd(fd: nat)
    | RedirectPath

  // ----- What a stream asks of the child -----

  /** The child's table once the stream is set up on procfd, pipes apart. `file` is what the
      call makes for the stream: the write end of its pipe, or the file its path names (None when
      that cannot be opened). None: the child does not get to `start`. */
  function Route(t: Table, s: Stream, procfd: nat, file: Option<File>): Option<Table> {
    match s
    case Capture => if file.Some? then Some(t[procfd := file.value]) else None
    case Connect(src, tgt) => if tgt in t then Some(t[src := t[tgt]]) else None
    case Inherit => Some(t)
    case RedirectFd(fd) =>
      if fd == procfd then Some(t) else if fd in t then Some(t[procfd := t[fd]] - {fd}) else None
    case RedirectPath => if file.Some? then Some(t[procfd := file.value]) else None
  }

  function RouteBoth(t: Table, out: Stream, err: Stream, outFile: Option<File>, errFile: Option<File>): Option<Table> {
    match Route(t, out, STDOUT, outFile)
    case None => None
    case Some(t1) => Route(t1, err, STDERR, errFile)
  }

  /** The descriptors a stream names are open. */
  predicate NamesOpen(t: Table, s: Stream) {
    (s.RedirectFd? ==> s.fd in t) && (s.Connect? ==> s.src in t && s.tgt in t)
  }

  // ----- The kernel's side -----

  lemma FreeDescriptor(used: set<nat>) returns (fd: nat)
    ensures forall x :: x in used ==> x < fd
  {
    if used == {} {
      fd := 0;
    } else {
      var x :| x in used;
      var n := FreeDescriptor(used - {x});
      fd := if x < n then n else x + 1;
      assert forall y :: y in used ==> y == x || y in used - {x};
    }
  }

  /** One process's descriptors. A new descriptor is any unused number, which covers the lowest. */
  class Kernel {
    var table: Table
    /** The descriptors that a program executed in this process does not get (FD_CLOEXEC). */
    var cloexec: set<nat>
    /** Files made so far, here or before the fork. */
    var made: nat
    /** dup2 may fail on an open descriptor (EINTR, EBUSY and the like). */
    const dupMayFail: bool

    ghost predicate Valid()
      reads this
    {
      forall fd :: fd in table ==> table[fd].id < made
    }

    constructor (table: Table, cloexec: set<nat>, made: nat, dupMayFail: bool)
      ensures this.table == table && this.cloexec == cloexec
      ensures this.made == made && this.dupMayFail == dupMayFail
    {
      this.table, this.cloexec, this.made, this.dupMayFail := table, cloexec, made, dupMayFail;
    }

    method Allocate(file: File, flagged: bool) returns (fd: nat)
      modifies this`table, this`cloexec
      ensures fd !in old(table) && table == old(table)[fd := file]
      ensures cloexec == if flagged then old(cloexec) + {fd} else old(cloexec) - {fd}
    {
      ghost var free := FreeDescriptor(table.Keys);
      assert free !in table;
      fd :| fd !in table;
      table := table[fd := file];
      cloexec := if flagged then cloexec + {fd} else cloexec - {fd};
    }

    method Close(fd: nat)
      modifies this`table, this`cloexec
      ensures table == old(table) - {fd} && cloexec == old(cloexec) - {fd}
    {
      table := table - {fd};
      cloexec := cloexec - {fd};
    }

    method Dup2(oldfd: nat, newfd: nat) returns (ok: bool)
      modifies this`table, this`cloexec
      ensures ok ==> oldfd in old(table)
      ensures !ok && oldfd in old(table) ==> dupMayFail
      ensures table == if ok then old(table)[newfd := old(table)[oldfd]] else old(table)
      ensures cloexec == if ok && oldfd != newfd then old(cloexec) - {newfd} else old(cloexec)
    {
      ok := oldfd in table;
      if ok && dupMayFail {
        ok := *;
      }
      if ok {
        table := table[newfd := table[oldfd]];
        cloexec := if oldfd != newfd then cloexec - {newfd} else cloexec;
      }
    }

    /** pipe; `fails` stands for EMFILE and the like. */
    method Pipe(fails: bool) returns (ok: bool, r: nat, w: nat)
      requires Valid()
      modifies this`table, this`made, this`cloexec
      ensures Valid() && ok == !fails
      ensures !ok ==> table == old(table) && made == old(made)
      ensures ok ==> r !in old(table) && w !in old(table) && r != w && made == old(made) + 2
      ensures ok ==> table == old(table)[r := File(old(made))][w := File(old(made) + 1)]
      ensures cloexec <= old(cloexec)
    {
      ok, r, w := !fails, 0, 0;
      if ok {
        r := Allocate(File(made), false);
        w := Allocate(File(made + 1), false);
        made := made + 2;
      }
    }

    /** open for writing, with O_CLOEXEC */
    method Open(fails: bool) returns (fd: Option<nat>)
      requires Valid()
      modifies this`table, this`made, this`cloexec
      ensures Valid() && (fd.None? <==> fails)
      ensures fd.None? ==> table == old(table) && made == old(made)
      ensures fd.Some? ==> fd.value !in old(table) && made == old(made) + 1
      ensures fd.Some? ==> table == old(table)[fd.value := File(old(made))]
      ensures cloexec == if fd.Some? then old(cloexec) + {fd.value} else old(cloexec)
    {
      fd := None;
      if !fails {
        var n := Allocate(File(made), true);
        made := made + 1;
        fd := Some(n);
      }
    }
  }

  // ----- stream_prepare -----

  class StreamPrepare {
    const sb: Stream
    var pipefdsOk: bool
    var r: nat
    var w: nat

    constructor (sb: Stream)
      ensures this.sb == sb && !pipefdsOk
    {
      this.sb, pipefdsOk := sb, false;
      r, w := 0, 0;
    }

    /** The pipe of a captured stream stands in the table, apart from everything before it. */
    ghost predicate Prepared(before: Table, after: Table, made: nat)
      reads this
    {
      && pipefdsOk == sb.Capture?
      && (!pipefdsOk ==> after == before)
      && (pipefdsOk ==> r !in before && w !in before && r != w)
      && (pipefdsOk ==> after == before[r := File(made)][w := File(made + 1)])
    }

    /** stream_prepare_init */
    method Init(k: Kernel, fails: bool) returns (ok: bool)
      requires k.Valid() && !pipefdsOk
      modifies this, k
      ensures k.Valid() && (ok <==> !(sb.Capture? && fails))
      ensures k.made >= old(k.made)
      ensures ok ==> Prepared(old(k.table), k.table, old(k.made))
      ensures ok ==> k.made == old(k.made) + if sb.Capture? then 2 else 0
      ensures !ok ==> k.table == old(k.table) && !pipefdsOk
      ensures k.cloexec <= old(k.cloexec)
    {
      ok := true;
      if sb.Capture? {
        ok, r, w := k.Pipe(fails);
        pipefdsOk := ok;
      }
    }

    /** stream_prepare_fini */
    method Fini(k: Kernel)
      modifies k`table, k`cloexec
      ensures k.table == if pipefdsOk then old(k.table) - {r} - {w} else old(k.table)
      ensures k.cloexec <= old(k.cloexec)
    {
      if pipefdsOk {
        k.Close(r);
        k.Close(w);
      }
    }
  }

  // ----- The child -----

  /** safe_dup */
  method SafeDup(k: Kernel, oldfd: nat, newfd: nat) returns (ok: bool)
    modifies k`table, k`cloexec
    ensures ok ==> oldfd == newfd || oldfd in old(k.table)
    ensures !ok ==> oldfd != newfd && (oldfd in old(k.table) ==> k.dupMayFail)
    ensures k.table ==
      if oldfd == newfd || !ok then old(k.table) else old(k.table)[newfd := old(k.table)[oldfd]] - {oldfd}
    ensures k.cloexec ==
      if oldfd == newfd || !ok then old(k.cloexec) else old(k.cloexec) - {newfd, oldfd}
  {
    ok := true;
    if oldfd != newfd {
      ok := k.Dup2(oldfd, newfd);
      if ok {
        k.Close(oldfd);
      }
    }
  }

  /** The file that child_connect puts in place for its stream. */
  ghost function MadeFor(sp: StreamPrepare, table: Table, made: nat, openFails: bool): Option<File>
    reads sp
  {
    match sp.sb
    case Capture => if sp.w in table then Some(table[sp.w]) else None
    case RedirectPath => if openFails then None else Some(File(made))
    case _ => None
  }

  /** The descriptors of the stream's own pipe. */
  ghost function PipeFds(sp: StreamPrepare): set<nat>
    reads sp
  {
    if sp.pipefdsOk then {sp.r, sp.w} else {}
  }

  /** The pipe of a captured stream is in the table, on other descriptors than procfd. */
  ghost predicate OwnPipe(sp: StreamPrepare, procfd: nat, table: Table)
    reads sp
  {
    sp.pipefdsOk ==> sp.r != sp.w && sp.w in table && sp.r != procfd && sp.w != procfd
  }

  /** child_connect: what Route says, and the stream's own pipe is gone from the table. Only a file
      that was opened straight onto procfd keeps its close-on-exec flag. */
  method ChildConnect(k: Kernel, sp: StreamPrepare, procfd: nat, openFails: bool) returns (ok: bool)
    requires k.Valid() && sp.pipefdsOk == sp.sb.Capture?
    modifies k
    ensures k.made == old(k.made) + Opens(sp.sb, openFails)
    ensures OwnPipe(sp, procfd, old(k.table)) ==>
      var routed := Route(old(k.table), sp.sb, procfd, MadeFor(sp, old(k.table), old(k.made), openFails));
      && (ok ==> routed.Some? && k.table == routed.value - PipeFds(sp))
      && (!ok ==> routed.None? || k.dupMayFail)
    ensures k.Valid()
    ensures k.cloexec <= old(k.cloexec) + (if sp.sb.RedirectPath? && procfd !in old(k.table) then {procfd} else {})
  {
    match sp.sb
    case Capture =>
      k.Close(sp.r);
      ok := SafeDup(k, sp.w, procfd);
    case Connect(src, tgt) =>
      ok := k.Dup2(tgt, src);
    case Inherit =>
      ok := true;
    case RedirectFd(fd) =>
      ok := SafeDup(k, fd, procfd);
    case RedirectPath =>
      var aux := k.Open(openFails);
      if aux.None? {
        ok := false;
      } else {
        ok := SafeDup(k, aux.value, procfd);
        if !ok {
          k.Close(aux.value);
        }
      }
  }

  // ----- Pipes of the other stream do not matter -----

  /** The stream does not touch these descriptors. */
  predicate Apart(s: Stream, procfd: nat, fds: set<nat>) {
    procfd !in fds && (s.RedirectFd? ==> s.fd !in fds) && (s.Connect? ==> s.src !in fds && s.tgt !in fds)
  }

  lemma RouteFrame(t: Table, extra: Table, s: Stream, procfd: nat, file: Option<File>)
    requires t.Keys !! extra.Keys && Apart(s, procfd, extra.Keys)
    ensures var r, r' := Route(t, s, procfd, file), Route(t + extra, s, procfd, file);
      && (r.Some? <==> r'.Some?)
      && (r.Some? ==> r'.value == r.value + extra && r.value.Keys !! extra.Keys)
  {
    var r, r' := Route(t, s, procfd, file), Route(t + extra, s, procfd, file);
    if r.Some? {
      assert r'.value.Keys == (r.value + extra).Keys;
      assert forall fd :: fd in r.value ==> r'.value[fd] == (r.value + extra)[fd];
    }
  }

  /** What the pipe of a stream adds to a table. */
  ghost function PipeEntries(sp: StreamPrepare, made: nat): (e: Table)
    reads sp
    ensures e.Keys == PipeFds(sp)
  {
    var none: Table := map[];
    var readEnd: Table := none[sp.r := File(made)];
    var both: Table := readEnd[sp.w := File(made + 1)];
    if sp.pipefdsOk then both else none
  }

  /** What child_connect does among the other stream's pipe: Route on the table without any
      pipe, and the other pipe is still there. */
  lemma RouteApart(sp: StreamPrepare, procfd: nat, openFails: bool, t: Table, pipeMade: nat, made: nat, extra: Table)
    requires sp.pipefdsOk == sp.sb.Capture? && (sp.pipefdsOk ==> sp.r != sp.w)
    requires t.Keys !! PipeFds(sp) && t.Keys !! extra.Keys && PipeFds(sp) !! extra.Keys
    requires Apart(sp.sb, procfd, PipeFds(sp)) && Apart(sp.sb, procfd, extra.Keys)
    ensures var table := t + PipeEntries(sp, pipeMade) + extra;
      var file := OutFile(sp.sb, pipeMade, made, openFails);
      var r, r' := Route(t, sp.sb, procfd, file), Route(table, sp.sb, procfd, MadeFor(sp, table, made, openFails));
      && OwnPipe(sp, procfd, table)
      && (r.Some? <==> r'.Some?)
      && (r.Some? ==> r'.value - PipeFds(sp) == r.value + extra && r.value.Keys !! extra.Keys)
  {
    var own := PipeEntries(sp, pipeMade);
    var table := t + own + extra;
    var file := OutFile(sp.sb, pipeMade, made, openFails);
    assert table == t + (own + extra);
    assert (own + extra).Keys == PipeFds(sp) + extra.Keys;
    RouteFrame(t, own + extra, sp.sb, procfd, file);
    var r := Route(t, sp.sb, procfd, file);
    if r.Some? {
      assert r.value + (own + extra) - PipeFds(sp) == r.value + extra;
    }
  }

  datatype ChildOutcome = Started(table: Table) | ExitedFailure

  ghost function Outcome(routed: Option<Table>): ChildOutcome {
    if routed.Some? then Started(routed.value) else ExitedFailure
  }

  /** The file a stream is given: its pipe's write end, or the file that its path names. */
  ghost function OutFile(s: Stream, pipeMade: nat, made: nat, openFails: bool): Option<File> {
    match s
    case Capture => Some(File(pipeMade + 1))
    case RedirectPath => if openFails then None else Some(File(made))
    case _ => None
  }

  function Opens(s: Stream, openFails: bool): nat {
    if s.RedirectPath? && !openFails then 1 else 0
  }

  /** Descriptors open in the parent are not those of the pipes. */
  lemma NamedApart(t: Table, s: Stream, procfd: nat, fds: set<nat>)
    requires procfd in t && NamesOpen(t, s) && t.Keys !! fds
    ensures Apart(s, procfd, fds)
  {
  }

  /** The parent's table at the call: its own stdout and stderr, and what the streams name. */
  predicate Usable(t: Table, out: Stream, err: Stream) {
    STDOUT in t && STDERR in t && NamesOpen(t, out) && NamesOpen(t, err)
  }

  /** The child's table: t with both pipes in it. */
  ghost predicate Forked(t: Table, table: Table, outsp: StreamPrepare, errsp: StreamPrepare, made1: nat, made2: nat)
    reads outsp, errsp
  {
    && outsp.pipefdsOk == outsp.sb.Capture? && errsp.pipefdsOk == errsp.sb.Capture?
    && (outsp.pipefdsOk ==> outsp.r != outsp.w) && (errsp.pipefdsOk ==> errsp.r != errsp.w)
    && t.Keys !! PipeFds(outsp) && t.Keys !! PipeFds(errsp) && PipeFds(outsp) !! PipeFds(errsp)
    && table == t + PipeEntries(outsp, made1) + PipeEntries(errsp, made2)
  }

  /** The descriptors whose files may be opened straight onto them, and are then closed on exec: with
      stdout redirected from descriptor 2, open may return 2 for stderr's path. */
  function OpenedInPlace(out: Stream, err: Stream): set<nat> {
    if out == RedirectFd(STDERR) && err.RedirectPath? then {STDERR} else {}
  }

  /** do_child: stdout first, then stderr; an error ends the child. */
  method DoChild(k: Kernel, outsp: StreamPrepare, errsp: StreamPrepare, openOutFails: bool, openErrFails: bool,
                 ghost t: Table, ghost made1: nat, ghost made2: nat)
      returns (r: ChildOutcome)
    requires k.Valid() && Forked(t, k.table, outsp, errsp, made1, made2)
    modifies k
    ensures Usable(t, outsp.sb, errsp.sb) ==>
      var outFile := OutFile(outsp.sb, made1, old(k.made), openOutFails);
      var errFile := OutFile(errsp.sb, made2, old(k.made) + Opens(outsp.sb, openOutFails), openErrFails);
      r == Outcome(RouteBoth(t, outsp.sb, errsp.sb, outFile, errFile)) || (k.dupMayFail && r.ExitedFailure?)
    ensures Usable(t, outsp.sb, errsp.sb) ==> k.cloexec <= old(k.cloexec) + OpenedInPlace(outsp.sb, errsp.sb)
  {
    hide Route, Apart, MadeFor, PipeEntries, OutFile, NamesOpen;
    ghost var usable := Usable(t, outsp.sb, errsp.sb);
    ghost var m, errPipe := k.made, PipeEntries(errsp, made2);
    ghost var t1 := t;
    if usable {
      NamedApart(t, outsp.sb, STDOUT, PipeFds(outsp));
      NamedApart(t, outsp.sb, STDOUT, PipeFds(errsp));
      RouteApart(outsp, STDOUT, openOutFails, t, made1, m, errPipe);
    }
    var ok := ChildConnect(k, outsp, STDOUT, openOutFails);
    if ok {
      ghost var none: Table := map[];
      if usable {
        t1 := Route(t, outsp.sb, STDOUT, OutFile(outsp.sb, made1, m, openOutFails)).value;
        NamedApart(t, errsp.sb, STDERR, PipeFds(errsp));
        NamedApart(t, errsp.sb, STDERR, {});
        RouteApart(errsp, STDERR, openErrFails, t1, made2, k.made, none);
        assert t1 + errPipe + none == t1 + errPipe;
        StderrStays(t, outsp.sb, OutFile(outsp.sb, made1, m, openOutFails));
      }
      ok := ChildConnect(k, errsp, STDERR, openErrFails);
      if ok {
        if usable {
          var errFile := OutFile(errsp.sb, made2, m + Opens(outsp.sb, openOutFails), openErrFails);
          var t2 := Route(t1, errsp.sb, STDERR, errFile).value;
          assert t2 + none == t2;
        }
        return Started(k.table);
      }
    }
    return ExitedFailure;
  }

  /** Setting up stdout leaves stderr open, unless it takes it. */
  lemma StderrStays(t: Table, out: Stream, file: Option<File>)
    requires STDERR in t && Route(t, out, STDOUT, file).Some?
    ensures STDERR in Route(t, out, STDOUT, file).value <==> out != RedirectFd(STDERR)
  {
  }

  // ----- The parent -----

  /** atf_process_child_t; None stands for -1. */
  class Child {
    var pid: int
    var stdout: Option<nat>
    var stderr: Option<nat>

    constructor ()
    {
      pid, stdout, stderr := 0, None, None;
    }

    /** atf_process_child_init */
    method Init()
      modifies this
      ensures stdout == None && stderr == None
    {
      pid, stdout, stderr := 0, None, None;
    }

    /** atf_process_child_fini */
    method Fini(k: Kernel)
      modifies k`table, k`cloexec
      ensures k.table == old(k.table) - Captured()
    {
      if stdout.Some? {
        k.Close(stdout.value);
      }
      if stderr.Some? {
        k.Close(stderr.value);
      }
    }

    ghost function Captured(): set<nat>
      reads this
    {
      (if stdout.Some? then {stdout.value} else {}) + (if stderr.Some? then {stderr.value} else {})
    }
  }

  /** parent_connect: the write end is closed, the read end handed over. */
  method ParentConnect(k: Kernel, sp: StreamPrepare, fd: Option<nat>) returns (fd': Option<nat>)
    requires sp.pipefdsOk == sp.sb.Capture?
    modifies k`table, k`cloexec
    ensures k.table == if sp.pipefdsOk then old(k.table) - {sp.w} else old(k.table)
    ensures fd' == if sp.pipefdsOk then Some(sp.r) else fd
  {
    fd' := fd;
    if sp.sb.Capture? {
      k.Close(sp.w);
      fd' := Some(sp.r);
    }
  }

  /** do_parent */
  method DoParent(k: Kernel, c: Child, pid: int, outsp: StreamPrepare, errsp: StreamPrepare)
    requires outsp.pipefdsOk == outsp.sb.Capture? && errsp.pipefdsOk == errsp.sb.Capture?
    modifies k`table, k`cloexec, c
    ensures c.pid == pid
    ensures c.stdout == (if outsp.pipefdsOk then Some(outsp.r) else None)
    ensures c.stderr == (if errsp.pipefdsOk then Some(errsp.r) else None)
    ensures k.table == old(k.table) - WriteEnd(outsp) - WriteEnd(errsp)
  {
    c.Init();
    c.pid := pid;
    c.stdout := ParentConnect(k, outsp, c.stdout);
    c.stderr := ParentConnect(k, errsp, c.stderr);
  }

  ghost function WriteEnd(sp: StreamPrepare): set<nat>
    reads sp
  {
    if sp.pipefdsOk then {sp.w} else {}
  }

  /** The read end that a captured stream leaves in the parent. */
  ghost function ReadEnd(fd: Option<nat>, made: nat): (t: Table)
    ensures t.Keys == if fd.Some? then {fd.value} else {}
    ensures fd.Some? ==> t[fd.value] == File(made)
  {
    var none: Table := map[];
    var one: Table := none[(if fd.Some? then fd.value else 0) := File(made)];
    if fd.Some? then one else none
  }

  /** What can go wrong outside the program's control. */
  datatype Failures =
    Failures(outPipe: bool, errPipe: bool, fork: bool, openOut: bool, openErr: bool, dup: bool)

  function PipesMade(s: Stream): nat {
    if s.Capture? then 2 else 0
  }

  /** The files of the two streams in the child, from the files made before the call. */
  ghost function FilesOf(out: Stream, err: Stream, made: nat, fails: Failures): (Option<File>, Option<File>) {
    var forked := made + PipesMade(out) + PipesMade(err);
    (OutFile(out, made, forked, fails.openOut),
     OutFile(err, made + PipesMade(out), forked + Opens(out, fails.openOut), fails.openErr))
  }

  /** What closing the write ends leaves of the two pipes. */
  lemma ParentTable(t: Table, table: Table, outsp: StreamPrepare, errsp: StreamPrepare, made1: nat, made2: nat)
    requires Forked(t, table, outsp, errsp, made1, made2)
    ensures table - WriteEnd(outsp) - WriteEnd(errsp) ==
      t + ReadEnd(if outsp.pipefdsOk then Some(outsp.r) else None, made1)
        + ReadEnd(if errsp.pipefdsOk then Some(errsp.r) else None, made2)
  {
  }

  /** fork_with_streams. On an error the parent's table is the one before the call; otherwise it
      gains exactly the read ends of the captured streams, on unused descriptors. The child gets
      to `start` with the table that RouteBoth says, or exits with a failure; a captured stream's
      file in the child is the other end of the pipe that the parent reads. */
  method ForkWithStreams(k: Kernel, c: Child, out: Stream, err: Stream, fails: Failures, pid: int)
      returns (ok: bool, child: ChildOutcome, closing: set<nat>)
    requires k.Valid()
    modifies k, c
    ensures ok <==> !(out.Capture? && fails.outPipe) && !(err.Capture? && fails.errPipe) && !fails.fork
    ensures !ok ==> k.table == old(k.table)
    ensures ok ==> c.pid == pid
    ensures ok ==> (c.stdout.Some? <==> out.Capture?) && (c.stderr.Some? <==> err.Capture?)
    ensures ok ==> c.Captured() !! old(k.table).Keys && (out.Capture? && err.Capture? ==> c.stdout != c.stderr)
    ensures ok ==> k.table ==
                   old(k.table) + ReadEnd(c.stdout, old(k.made)) + ReadEnd(c.stderr, old(k.made) + PipesMade(out))
    ensures ok && Usable(old(k.table), out, err) ==>
      var files := FilesOf(out, err, old(k.made), fails);
      child == Outcome(RouteBoth(old(k.table), out, err, files.0, files.1)) || (fails.dup && child.ExitedFailure?)
    ensures ok && Usable(old(k.table), out, err) ==> closing <= old(k.cloexec) + OpenedInPlace(out, err)
  {
    hide OpenedInPlace, Forked, RouteBoth, Outcome, OutFile, Usable, PipeEntries, ReadEnd, WriteEnd, Route;
    hide StreamPrepare.Prepared, Kernel.Valid;
    child, closing := ExitedFailure, {};
    ghost var t, m := k.table, k.made;
    ghost var made2 := m + PipesMade(out);
    var outsp := new StreamPrepare(out);
    var errsp := new StreamPrepare(err);
    ok := PrepareBoth(k, outsp, errsp, fails);
    if !ok {
      return;
    }
    if fails.fork {
      ok := false;
      DropBoth(k, outsp, errsp, t, m, made2);
      return;
    }
    ParentTable(t, k.table, outsp, errsp, m, made2);
    ghost var left := k.table - WriteEnd(outsp) - WriteEnd(errsp);
    child, closing := RunChild(k, outsp, errsp, fails, t, m, made2);
    DoParent(k, c, pid, outsp, errsp);
    assert k.table == left;
  }

  /** The two stream_prepare_init calls, and the cleanup when the second one fails. */
  method PrepareBoth(k: Kernel, outsp: StreamPrepare, errsp: StreamPrepare, fails: Failures) returns (ok: bool)
    requires k.Valid() && !outsp.pipefdsOk && !errsp.pipefdsOk && outsp != errsp
    modifies k, outsp, errsp
    ensures ok <==> !(outsp.sb.Capture? && fails.outPipe) && !(errsp.sb.Capture? && fails.errPipe)
    ensures !ok ==> k.table == old(k.table)
    ensures ok ==> k.Valid() && k.made == old(k.made) + PipesMade(outsp.sb) + PipesMade(errsp.sb)
    ensures ok ==> Forked(old(k.table), k.table, outsp, errsp, old(k.made), old(k.made) + PipesMade(outsp.sb))
    ensures ok ==> outsp.pipefdsOk == outsp.sb.Capture? && errsp.pipefdsOk == errsp.sb.Capture?
    ensures k.cloexec <= old(k.cloexec)
    ensures ok ==> (PipeFds(outsp) + PipeFds(errsp)) !! old(k.table).Keys && PipeFds(outsp) !! PipeFds(errsp)
  {
    ghost var t, m := k.table, k.made;
    ok := outsp.Init(k, fails.outPipe);
    if !ok {
      return;
    }
    ghost var t1 := k.table;
    ok := errsp.Init(k, fails.errPipe);
    if !ok {
      outsp.Fini(k);
      return;
    }
    PreparedForked(t, t1, k.table, outsp, errsp, m, m + PipesMade(outsp.sb));
  }

  /** The cleanup after a failed fork. */
  method DropBoth(k: Kernel, outsp: StreamPrepare, errsp: StreamPrepare,
                  ghost t: Table, ghost made1: nat, ghost made2: nat)
    requires Forked(t, k.table, outsp, errsp, made1, made2)
    modifies k`table, k`cloexec
    ensures k.table == t
  {
    errsp.Fini(k);
    outsp.Fini(k);
  }

  lemma PreparedForked(t: Table, t1: Table, table: Table, outsp: StreamPrepare, errsp: StreamPrepare,
                       made1: nat, made2: nat)
    requires outsp.Prepared(t, t1, made1) && errsp.Prepared(t1, table, made2)
    ensures Forked(t, table, outsp, errsp, made1, made2)
  {
  }

  /** The child after fork: a process of its own, with a copy of the parent's table. `closing` are the
      descriptors that a program executed in it does not get. */
  method RunChild(k: Kernel, outsp: StreamPrepare, errsp: StreamPrepare, fails: Failures,
                  ghost t: Table, ghost made1: nat, ghost made2: nat)
      returns (child: ChildOutcome, closing: set<nat>)
    requires k.Valid() && Forked(t, k.table, outsp, errsp, made1, made2)
    ensures Usable(t, outsp.sb, errsp.sb) ==> closing <= k.cloexec + OpenedInPlace(outsp.sb, errsp.sb)
    ensures Usable(t, outsp.sb, errsp.sb) ==>
      var outFile := OutFile(outsp.sb, made1, k.made, fails.openOut);
      var errFile := OutFile(errsp.sb, made2, k.made + Opens(outsp.sb, fails.openOut), fails.openErr);
      child == Outcome(RouteBoth(t, outsp.sb, errsp.sb, outFile, errFile)) || (fails.dup && child.ExitedFailure?)
  {
    var ck := new Kernel(k.table, k.cloexec, k.made, fails.dup);
    child := DoChild(ck, outsp, errsp, fails.openOut, fails.openErr, t, made1, made2);
    closing := ck.cloexec;
  }

  /** atf_process_child_wait; on success the descriptors of the child are closed. */
  method ChildWait(k: Kernel, c: Child, interrupted: bool) returns (ok: bool)
    modifies k`table, k`cloexec
    ensures ok == !interrupted
    ensures k.table == if ok then old(k.table) - c.Captured() else old(k.table)
  {
    ok := !interrupted;
    if ok {
      c.Fini(k);
    }
  }

  /** After fork and a successful wait the parent's table is the original one. */
  lemma ForkThenWait(t: Table, stdout: Option<nat>, stderr: Option<nat>, made1: nat, made2: nat)
    requires stdout.Some? ==> stdout.value !in t
    requires stderr.Some? ==> stderr.value !in t
    ensures t + ReadEnd(stdout, made1) + ReadEnd(stderr, made2)
            - ((if stdout.Some? then {stdout.value} else {}) + (if stderr.Some? then {stderr.value} else {})) == t
  {
  }

  /** A fork and a wait, as check.c makes them (there no stream is captured): the parent's table is
      the one before, but for the read ends of captured streams when the wait is interrupted. */
  method ForkAndWait(k: Kernel, c: Child, out: Stream, err: Stream, fails: Failures, pid: int, interrupted: bool)
      returns (ok: bool, child: ChildOutcome)
    requires k.Valid()
    modifies k, c
    ensures var forked := !(out.Capture? && fails.outPipe) && !(err.Capture? && fails.errPipe) && !fails.fork;
      && (ok <==> forked && !interrupted)
      && k.table == if !forked || !interrupted then old(k.table) else
                      old(k.table) + ReadEnd(c.stdout, old(k.made)) + ReadEnd(c.stderr, old(k.made) + PipesMade(out))
    ensures !out.Capture? && !err.Capture? ==> k.table == old(k.table)
  {
    hide Usable, FilesOf, RouteBoth, Outcome, PipesMade, Kernel.Valid;
    ghost var t, m := k.table, k.made;
    var closing;
    ok, child, closing := ForkWithStreams(k, c, out, err, fails, pid);
    if ok {
      ForkThenWait(t, c.stdout, c.stderr, m, m + PipesMade(out));
      ok := ChildWait(k, c, interrupted);
    }
  }

  /** init_stream_w_default: the stream that the caller gives, or, for NULL, the inherited one. */
  method InitStreamWithDefault(usersb: Option<Stream>) returns (realsb: Stream)
    ensures usersb == Some(realsb) || (usersb == None && realsb == Inherit)
  {
    realsb := if usersb.Some? then usersb.value else Inherit;
  }

  /** atf_process_exec_array: captured streams are excluded; the wait is repeated when it is
      interrupted, `interrupts` times here. Nothing is left behind in the parent. The child is the one
      that fork_with_streams sets up, and the program in it gets that table without the descriptors
      that were closed on exec in the parent, and without a stderr file opened in place. */
  method ExecArray(k: Kernel, out: Option<Stream>, err: Option<Stream>, fails: Failures, pid: int, interrupts: nat)
      returns (ok: bool, child: ChildOutcome, program: Option<Table>)
    requires k.Valid() && out != Some(Capture) && err != Some(Capture)
    modifies k
    ensures ok == !fails.fork && k.table == old(k.table)
    ensures ok ==>
      var o, e := if out.Some? then out.value else Inherit, if err.Some? then err.value else Inherit;
      Usable(old(k.table), o, e) ==>
        var files := FilesOf(o, e, old(k.made), fails);
        child == Outcome(RouteBoth(old(k.table), o, e, files.0, files.1)) || (fails.dup && child.ExitedFailure?)
    ensures ok ==>
      var o, e := if out.Some? then out.value else Inherit, if err.Some? then err.value else Inherit;
      Usable(old(k.table), o, e) ==>
        var flagged := old(k.cloexec) + if o == RedirectFd(STDERR) && e == RedirectPath then {STDERR} else {};
        && (program.Some? <==> child.Started?)
        && (program.Some? ==>
              && program.value.Keys <= child.table.Keys && child.table.Keys - program.value.Keys <= flagged
              && forall fd :: fd in program.value ==> program.value[fd] == child.table[fd])
  {
    hide Usable, FilesOf, RouteBoth, Outcome;
    var c := new Child();
    var realOut := InitStreamWithDefault(out);
    var realErr := InitStreamWithDefault(err);
    var closing;
    ok, child, closing := ForkWithStreams(k, c, realOut, realErr, fails, pid);
    program := if child.Started? then Some(child.table - closing) else None;
    if !ok {
      return;
    }
    var left := interrupts;
    var waited := false;
    while !waited
      invariant k.table == old(k.table) && c.Captured() == {} && left >= 0
      decreases !waited, left
    {
      waited := ChildWait(k, c, left > 0);
      left := if left > 0 then left - 1 else 0;
    }
  }
}
