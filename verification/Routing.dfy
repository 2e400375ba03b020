/** What the two streams of a fork mean for the child that reaches `start`. */
module Routing {
  import opened Options
  import opened Process

  /** The file a stream stands for on procfd. */
  function Specified(t: Table, s: Stream, procfd: nat, file: Option<File>): Option<File> {
    match s
    case Capture => file
    case RedirectPath => file
    case Connect(src, tgt) => FileAt(t, if src == procfd then tgt else procfd)
    case Inherit => FileAt(t, procfd)
    case RedirectFd(fd) => FileAt(t, fd)
  }

  function FileAt(t: Table, fd: nat): Option<File> {
    if fd in t then Some(t[fd]) else None
  }

  /** The descriptor that setting up the stream closes: safe_dup moves it. */
  function Moved(s: Stream, procfd: nat): set<nat> {
    if s.RedirectFd? && s.fd != procfd then {s.fd} else {}
  }

  /** The descriptors that setting up the stream replaces. */
  function Replaced(s: Stream, procfd: nat): set<nat> {
    match s
    case Connect(src, _) => {src}
    case Inherit => {}
    case RedirectFd(fd) => if fd == procfd then {} else {procfd}
    case _ => {procfd}
  }

  /** The files made for the streams that need one exist. */
  predicate FilesMade(s: Stream, file: Option<File>) {
    s.Capture? || s.RedirectPath? ==> file.Some?
  }

  /** The descriptors a stream reads from. */
  function Source(s: Stream, procfd: nat): set<nat> {
    match s
    case Connect(_, tgt) => {tgt}
    case RedirectFd(fd) => if fd != procfd then {fd} else {}
    case _ => {}
  }

  /** The child reaches `start` exactly when the files could be made and setting up stdout did
      not close what stderr is to come from. */
  lemma ReachesStartIff(t: Table, out: Stream, err: Stream, outFile: Option<File>, errFile: Option<File>)
    requires Usable(t, out, err)
    ensures RouteBoth(t, out, err, outFile, errFile).Some? <==>
            FilesMade(out, outFile) && FilesMade(err, errFile) && Moved(out, STDOUT) !! Source(err, STDERR)
  {
    if FilesMade(out, outFile) {
      var t1 := Route(t, out, STDOUT, outFile).value;
      assert forall fd :: fd in t && fd !in Moved(out, STDOUT) ==> fd in t1;
      assert forall fd :: fd in Moved(out, STDOUT) ==> fd !in t1;
    }
  }

  /** One descriptor given for both streams is gone when stderr asks for it. */
  lemma SameDescriptorTwice(t: Table, fd: nat)
    requires fd != STDOUT && fd != STDERR
    ensures RouteBoth(t, RedirectFd(fd), RedirectFd(fd), None, None).None?
  {
  }

  /** Two different descriptors above 2 are enough, and needed, for two redirections. */
  lemma RedirectBothIff(t: Table, a: nat, b: nat)
    requires STDOUT in t && STDERR in t && a in t && b in t && a > STDERR && b > STDERR
    ensures RouteBoth(t, RedirectFd(a), RedirectFd(b), None, None).Some? <==> a != b
    ensures a != b ==> RouteBoth(t, RedirectFd(a), RedirectFd(b), None, None) ==
                       Some(t[STDOUT := t[a]][STDERR := t[b]] - {a, b})
  {
    if a != b {
      var t1 := t[STDOUT := t[a]] - {a};
      assert t1[STDERR := t1[b]] - {b} == t[STDOUT := t[a]][STDERR := t[b]] - {a, b};
    }
  }

  /** What the child that fork_with_streams leaves: without a failing dup2 it is at its start exactly
      when no path could not be opened and stdout has not moved away what stderr is to come from. */
  lemma ChildStartsIff(t: Table, out: Stream, err: Stream, made: nat, fails: Failures)
    requires Usable(t, out, err)
    ensures var files := FilesOf(out, err, made, fails);
      Outcome(RouteBoth(t, out, err, files.0, files.1)).Started? <==>
        && !(out.RedirectPath? && fails.openOut) && !(err.RedirectPath? && fails.openErr)
        && Moved(out, STDOUT) !! Source(err, STDERR)
  {
    hide Route;
    var files := FilesOf(out, err, made, fails);
    ReachesStartIff(t, out, err, files.0, files.1);
  }

  /** Stdout and stderr of the child are on the specified files: stderr on what its stream says
      in the table that stdout has been set up in (so that connecting stderr to stdout follows
      stdout's redirection), stdout on what its own stream says unless the second stream is
      itself a connection of stdout, or takes stdout away by redirecting stderr from it. Nothing
      else changes: no other descriptor refers to a pipe or a file that the call made, but a
      descriptor connected on purpose. */
  lemma ChildRouting(t: Table, out: Stream, err: Stream, outFile: Option<File>, errFile: Option<File>)
    requires Usable(t, out, err)
    requires RouteBoth(t, out, err, outFile, errFile).Some?
    ensures var t1, t2 := Route(t, out, STDOUT, outFile).value, RouteBoth(t, out, err, outFile, errFile).value;
      && FileAt(t1, STDOUT) == Specified(t, out, STDOUT, outFile)
      && FileAt(t2, STDERR) == Specified(t1, err, STDERR, errFile)
      && FileAt(t2, STDOUT) == (if err.Connect? && err.src == STDOUT then FileAt(t1, err.tgt)
                                else if err == RedirectFd(STDOUT) then None
                                else Specified(t, out, STDOUT, outFile))
      && t2.Keys == t.Keys - (Moved(out, STDOUT) - Replaced(err, STDERR)) - Moved(err, STDERR)
      && (forall fd :: fd in t2 && fd !in Replaced(out, STDOUT) + Replaced(err, STDERR) ==> t2[fd] == t[fd])
  {
    var t1 := Route(t, out, STDOUT, outFile).value;
    RouteEffect(t, out, STDOUT, outFile);
    RouteEffect(t1, err, STDERR, errFile);
    hide Route;
  }

  /** Stdout redirected from descriptor 2 takes stderr away, unless the second stream sets it. */
  lemma StdoutFromStderr(t: Table, err: Stream, errFile: Option<File>)
    requires STDOUT in t && STDERR in t && NamesOpen(t, err)
    requires RouteBoth(t, RedirectFd(STDERR), err, None, errFile).Some?
    ensures var t2 := RouteBoth(t, RedirectFd(STDERR), err, None, errFile).value;
      STDERR !in t2 <==> err == Inherit || err == RedirectFd(STDERR) || (err.Connect? && err.src != STDERR)
  {
    ChildRouting(t, RedirectFd(STDERR), err, None, errFile);
    hide Route;
  }

  lemma RouteEffect(t: Table, s: Stream, procfd: nat, file: Option<File>)
    requires Route(t, s, procfd, file).Some?
    ensures var r := Route(t, s, procfd, file).value;
      && FileAt(r, procfd) == Specified(t, s, procfd, file)
      && r.Keys == t.Keys + Replaced(s, procfd) - Moved(s, procfd)
      && (forall fd :: fd in r && fd !in Replaced(s, procfd) ==> fd in t && r[fd] == t[fd])
  {
  }

  /** A file made by the call is only on the descriptors that the streams replace. */
  lemma NoPipeLeaks(t: Table, out: Stream, err: Stream, outFile: Option<File>, errFile: Option<File>,
                    made: nat, fd: nat)
    requires Usable(t, out, err) && forall n :: n in t ==> t[n].id < made
    requires RouteBoth(t, out, err, outFile, errFile).Some?
    ensures var t2 := RouteBoth(t, out, err, outFile, errFile).value;
      fd in t2 && t2[fd].id >= made ==> fd in Replaced(out, STDOUT) + Replaced(err, STDERR)
  {
    ChildRouting(t, out, err, outFile, errFile);
  }

  /** What fork_with_streams makes of a table, kind by kind. */
  ghost function ChildOf(t: Table, out: Stream, err: Stream, made: nat, fails: Failures): ChildOutcome {
    var files := FilesOf(out, err, made, fails);
    Outcome(RouteBoth(t, out, err, files.0, files.1))
  }

  /** A redirected or inherited stdout, with stderr inherited, or following it (2>&1). */
  lemma StdoutRedirected(t: Table, fd: nat, made: nat, fails: Failures)
    requires STDOUT in t && STDERR in t && fd in t && fd > STDERR
    ensures Usable(t, RedirectFd(fd), Connect(2, 1)) && Usable(t, Connect(1, 2), RedirectFd(fd))
    ensures Usable(t, Inherit, Capture)
    ensures ChildOf(t, Inherit, Inherit, made, fails) == Started(t)
    ensures ChildOf(t, RedirectFd(fd), Inherit, made, fails) == Started(t[1 := t[fd]] - {fd})
    ensures ChildOf(t, Inherit, RedirectFd(fd), made, fails) == Started(t[2 := t[fd]] - {fd})
    ensures ChildOf(t, Inherit, Connect(2, 1), made, fails) == Started(t[2 := t[1]])
    ensures ChildOf(t, Connect(1, 2), Inherit, made, fails) == Started(t[1 := t[2]])
    ensures ChildOf(t, RedirectFd(fd), Connect(2, 1), made, fails) == Started(t[1 := t[fd]][2 := t[fd]] - {fd})
  {
    var moved := t[1 := t[fd]] - {fd};
    assert moved[2 := moved[1]] == t[1 := t[fd]][2 := t[fd]] - {fd};
  }

  /** Captured streams are the write ends of the pipes, whose read ends were made one file earlier; a
      path is a new file, or the end of the child. */
  lemma StreamsMade(t: Table, made: nat, fails: Failures)
    requires STDOUT in t && STDERR in t && !fails.openOut && !fails.openErr
    ensures ChildOf(t, Capture, Capture, made, fails) == Started(t[1 := File(made + 1)][2 := File(made + 3)])
    ensures ChildOf(t, Capture, Connect(2, 1), made, fails) == Started(t[1 := File(made + 1)][2 := File(made + 1)])
    ensures ChildOf(t, RedirectPath, RedirectPath, made, fails) == Started(t[1 := File(made)][2 := File(made + 1)])
    ensures ChildOf(t, Capture, RedirectPath, made, fails) == Started(t[1 := File(made + 1)][2 := File(made + 2)])
    ensures ChildOf(t, RedirectPath, Capture, made, fails) == Started(t[1 := File(made + 2)][2 := File(made + 1)])
    ensures ChildOf(t, RedirectPath, Inherit, made, fails.(openOut := true)) == ExitedFailure
    ensures ChildOf(t, Inherit, RedirectPath, made, fails.(openErr := true)) == ExitedFailure
  {
    var captured := t[1 := File(made + 1)];
    assert captured[2 := captured[1]] == t[1 := File(made + 1)][2 := File(made + 1)];
  }
}
