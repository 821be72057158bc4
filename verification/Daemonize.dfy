/**
 `daemonize_` (cci_daemon/src/core/cci_daemonize.cpp:11-123, flags from
 include/cci_daemonize.h): the state machine that turns the calling process into a daemon,
 over the process identifiers and the descriptor table of the process that runs it.
 What the kernel answers is a parameter, the script.
 */
module Daemonize {
  const NO_CHDIR: bv64 := 1
  const NO_CLOSE_FILES: bv64 := 2
  const NO_REOPEN_STD_FDS: bv64 := 4
  const NO_UMASK_0: bv64 := 8
  const MAX_HANDLES: int := 8192

  /** What the flag word asks not to do. */
  datatype Options = Options(noChdir: bool, noCloseFiles: bool, noReopen: bool, noUmask: bool)

  predicate Bit(flags: bv64, bit: bv64) { flags & bit != 0 }

  function Decode(flags: bv64): Options {
    Options(Bit(flags, NO_CHDIR), Bit(flags, NO_CLOSE_FILES), Bit(flags, NO_REOPEN_STD_FDS), Bit(flags, NO_UMASK_0))
  }

  const TWO_31: int := 0x8000_0000
  const TWO_32: int := 0x1_0000_0000

  // ----- The process and the kernel -----

  type Pid = x: int | x > 0 witness 1

  datatype File = DevNull | Other(id: nat)

  datatype Proc = Proc(
    pid: Pid,
    pgid: Pid,                 // process group
    sid: Pid,                  // session
    files: map<nat, File>,     // descriptor table
    mask: nat,                 // file creation mask
    atRoot: bool)              // working directory is "/"

  /** Seen from the process that goes on: fork failed, or it is the child, or the parent. */
  datatype ForkOutcome = Failed | InChild(pid: Pid) | InParent(child: Pid)

  datatype Script = Script(
    fork1: ForkOutcome,
    setsidFails: bool,
    fork2: ForkOutcome,
    chdirFails: bool,
    openMax: int,              // `sysconf( _SC_OPEN_MAX )`, a long
    openFails: bool,
    dupOutFails: bool,
    dupErrFails: bool)

  predicate Leader(p: Proc) { p.pid == p.sid }

  /** A child has a process id that is no id of a live group or session. */
  predicate Fresh(o: ForkOutcome, p: Proc) {
    o.InChild? ==> o.pid != p.pid && o.pid != p.pgid && o.pid != p.sid
  }

  /** What POSIX promises about the ids of the children. */
  predicate PosixIds(script: Script, p: Proc) {
    Fresh(script.fork1, p) && Fresh(script.fork2, p)
    && (script.fork1.InChild? && script.fork2.InChild? ==> script.fork1.pid != script.fork2.pid)
  }

  function Forked(p: Proc, o: ForkOutcome): Proc {
    if o.InChild? then p.(pid := o.pid) else p
  }

  /** `setsid` fails for a group leader. */
  predicate SetsidOk(p: Proc, fails: bool) { !fails && p.pid != p.pgid }

  function NewSession(p: Proc): Proc { p.(sid := p.pid, pgid := p.pid) }

  /** `open` returns the lowest free descriptor. */
  predicate LowestFree(files: map<nat, File>, fd: nat) {
    fd !in files && forall k :: 0 <= k < fd ==> k in files
  }

  function Without(files: map<nat, File>, fd: nat): map<nat, File> {
    files - {fd}
  }

  /** The conversion of a long to an int. */
  function Truncated(x: int): int { (x + TWO_31) % TWO_32 - TWO_31 }

  /** The number of descriptors that are closed. */
  function Limit(script: Script): int {
    var maxfd := Truncated(script.openMax);
    if maxfd == -1 then MAX_HANDLES else maxfd
  }

  /** The descriptors from `n` on. */
  function ClosedBelow(files: map<nat, File>, n: int): map<nat, File> {
    map fd | fd in files && fd >= n :: files[fd]
  }

  // ----- The machine -----

  datatype Daemon = ForkBackground | MakeSessionLeader | ForkNoSessionLeader | ClearMask | ChangeToRoot
    | CloseAllFiles | ReopenStreams | Daemonized | Error

  /** `exited` says that the process has called `_exit`. */
  datatype Config = Config(dp: Daemon, p: Proc, exited: bool)

  predicate Final(c: Config) { c.exited || c.dp == Daemonized || c.dp == Error }

  function ForkStep(c: Config, outcome: ForkOutcome, next: Daemon): Config {
    match outcome
    case Failed => c.(dp := Error)
    case InChild(_) => Config(next, Forked(c.p, outcome), false)
    case InParent(_) => c.(exited := true)
  }

  function ReopenStep(script: Script, p: Proc): Config {
    var closed := Without(p.files, 0);
    if script.openFails then Config(Error, p.(files := closed), false)
    else
      var in0 := closed[0 := DevNull];
      if script.dupOutFails then Config(Error, p.(files := in0), false)
      else
        var in1 := in0[1 := DevNull];
        if script.dupErrFails then Config(Error, p.(files := in1), false)
        else Config(Daemonized, p.(files := in1[2 := DevNull]), false)
  }

  /** One round of the loop. */
  function Step(o: Options, script: Script, c: Config): Config
    requires !Final(c)
  {
    match c.dp
    case ForkBackground => ForkStep(c, script.fork1, MakeSessionLeader)
    case MakeSessionLeader =>
      if SetsidOk(c.p, script.setsidFails) then Config(ForkNoSessionLeader, NewSession(c.p), false) else c.(dp := Error)
    case ForkNoSessionLeader => ForkStep(c, script.fork2, ClearMask)
    case ClearMask => Config(ChangeToRoot, if !o.noUmask then c.p.(mask := 0) else c.p, false)
    case ChangeToRoot =>
      Config(CloseAllFiles, if !o.noChdir && !script.chdirFails then c.p.(atRoot := true) else c.p, false)
    case CloseAllFiles =>
      if !o.noCloseFiles then Config(ReopenStreams, c.p.(files := ClosedBelow(c.p.files, Limit(script))), false) else c
    case ReopenStreams =>
      if !o.noReopen then ReopenStep(script, c.p) else c.(dp := Daemonized)
    case _ => c
  }

  function Steps(o: Options, script: Script, c: Config, n: nat): Config
    decreases n
  {
    if n == 0 || Final(c) then c else Steps(o, script, Step(o, script, c), n - 1)
  }

  function Begin(p: Proc): Config { Config(ForkBackground, p, false) }

  ghost predicate Terminates(o: Options, script: Script, p: Proc) {
    exists n: nat :: Final(Steps(o, script, Begin(p), n))
  }

  // ----- When it terminates -----

  /** The first three steps do not end the run. */
  predicate Detaches(script: Script) {
    script.fork1.InChild? && !script.setsidFails && script.fork2.InChild?
  }

  predicate Halts(o: Options, script: Script) {
    !o.noCloseFiles || !Detaches(script)
  }

  lemma {:induction false} StepsAdd(o: Options, script: Script, c: Config, m: nat, n: nat)
    ensures Steps(o, script, c, m + n) == Steps(o, script, Steps(o, script, c, m), n)
    decreases m
  {
    if m > 0 && !Final(c) {
      StepsAdd(o, script, Step(o, script, c), m - 1, n);
    }
  }

  /** With the bit set, the machine stays where it should close the files. */
  lemma {:induction false} Stays(o: Options, script: Script, c: Config, n: nat)
    requires o.noCloseFiles && c.dp == CloseAllFiles && !c.exited
    ensures Steps(o, script, c, n) == c
  {
    if n == 0 {
    } else {
      Stays(o, script, c, n - 1);
    }
  }

  /** The state after the two forks: child of the child, in the session of the first child. */
  function Detached(o: Options, script: Script, p: Proc): Proc
    requires Detaches(script)
  {
    var q := p.(pid := script.fork2.pid, pgid := script.fork1.pid, sid := script.fork1.pid);
    q.(mask := if !o.noUmask then 0 else p.mask,
       atRoot := p.atRoot || (!o.noChdir && !script.chdirFails))
  }

  lemma FiveSteps(o: Options, script: Script, p: Proc)
    requires PosixIds(script, p) && Detaches(script)
    ensures Steps(o, script, Begin(p), 5) == Config(CloseAllFiles, Detached(o, script, p), false)
  {
    var c1 := Step(o, script, Begin(p));
    var c2 := Step(o, script, c1);
    var c3 := Step(o, script, c2);
    var c4 := Step(o, script, c3);
    var c5 := Step(o, script, c4);
    assert Steps(o, script, c4, 1) == c5;
    assert Steps(o, script, c3, 2) == c5;
    assert Steps(o, script, c2, 3) == c5;
    assert Steps(o, script, c1, 4) == c5;
  }

  /**
   The loop terminates exactly when the files are to be closed or an earlier step ends it:
   with `bd_no_close_files` the process that gets there spins for ever.
   */
  lemma TerminatesExactly(o: Options, script: Script, p: Proc)
    requires PosixIds(script, p)
    ensures Terminates(o, script, p) <==> Halts(o, script)
  {
    if Detaches(script) {
      FiveSteps(o, script, p);
      var c := Steps(o, script, Begin(p), 5);
      if !o.noCloseFiles {
        var c6 := Step(o, script, c);
        assert Steps(o, script, c6, 1) == Step(o, script, c6);
        assert Steps(o, script, c, 2) == Step(o, script, c6);
        StepsAdd(o, script, Begin(p), 5, 2);
        assert Final(Steps(o, script, Begin(p), 7));
      } else {
        forall n: nat ensures !Final(Steps(o, script, Begin(p), n)) {
          if n >= 5 {
            StepsAdd(o, script, Begin(p), 5, n - 5);
            Stays(o, script, c, n - 5);
          } else {
            StepsAdd(o, script, Begin(p), n, 5 - n);
          }
        }
      }
    } else {
      EndsEarly(o, script, p);
    }
  }

  /** A run that never ends: nothing fails, and `bd_no_close_files` is the only flag. */
  lemma SpinsForEver()
    ensures var p := Proc(100, 100, 100, map[0 := Other(1), 1 := Other(2)], 18, false);
      var script := Script(InChild(101), false, InChild(102), false, 1024, false, false, false);
      PosixIds(script, p) && !Terminates(Decode(2), script, p)
  {
    var p := Proc(100, 100, 100, map[0 := Other(1), 1 := Other(2)], 18, false);
    var script := Script(InChild(101), false, InChild(102), false, 1024, false, false, false);
    FlagBits();
    TerminatesExactly(Decode(2), script, p);
  }

  lemma EndsEarly(o: Options, script: Script, p: Proc)
    requires PosixIds(script, p) && !Detaches(script)
    ensures Final(Steps(o, script, Begin(p), 3))
  {
    var c1 := Step(o, script, Begin(p));
    assert Steps(o, script, Begin(p), 3) == Steps(o, script, c1, 2);
    if !Final(c1) {
      var c2 := Step(o, script, c1);
      assert Steps(o, script, c1, 2) == Steps(o, script, c2, 1);
      if !Final(c2) {
        assert Steps(o, script, c2, 1) == Step(o, script, c2);
      }
    }
  }

  // ----- What it promises -----

  /** Some step of the child fails. */
  predicate SomeStepFails(o: Options, script: Script) {
    || script.fork1.Failed?
    || (script.fork1.InChild? && script.setsidFails)
    || (script.fork1.InChild? && !script.setsidFails && script.fork2.Failed?)
    || (Detaches(script) && !o.noReopen && (script.openFails || script.dupOutFails || script.dupErrFails))
  }

  /** The process is the parent of one of the forks. */
  predicate LeftBehind(script: Script) {
    script.fork1.InParent? || (script.fork1.InChild? && !script.setsidFails && script.fork2.InParent?)
  }

  predicate StdStream(fd: nat) { fd < 3 }

  /** The descriptor table of a daemon: what was open at or above the limit, and the standard streams on /dev/null. */
  ghost predicate DaemonFiles(o: Options, limit: int, before: map<nat, File>, after: map<nat, File>) {
    if !o.noReopen then
      && (forall fd: nat :: StdStream(fd) ==> fd in after && after[fd] == DevNull)
      && (forall fd: nat :: !StdStream(fd) && fd < limit ==> fd !in after)
      && (forall fd: nat :: !StdStream(fd) && fd >= limit ==> (fd in after <==> fd in before) && (fd in before ==> after[fd] == before[fd]))
    else
      && (forall fd: nat :: fd < limit ==> fd !in after)
      && (forall fd: nat :: fd >= limit ==> (fd in after <==> fd in before) && (fd in before ==> after[fd] == before[fd]))
  }

  /** The process that returns 0: a child of a child, alone in the session of its parent, and no leader of it. */
  ghost predicate IsDaemon(o: Options, script: Script, before: Proc, after: Proc) {
    && !Leader(after) && after.pid != after.pgid && after.sid != before.sid
    && after.mask == (if !o.noUmask then 0 else before.mask)
    && after.atRoot == (before.atRoot || (!o.noChdir && !script.chdirFails))
    && DaemonFiles(o, Limit(script), before.files, after.files)
  }

  /** What is known of the process at each step of the machine. */
  ghost predicate Progress(o: Options, script: Script, before: Proc, c: Config) {
    if c.exited then LeftBehind(script)
    else match c.dp
      case ForkBackground => c.p == before
      case MakeSessionLeader => script.fork1.InChild? && c.p == Forked(before, script.fork1)
      case ForkNoSessionLeader => script.fork1.InChild? && !script.setsidFails && c.p == NewSession(Forked(before, script.fork1))
      case ClearMask => Detaches(script) && c.p == Forked(NewSession(Forked(before, script.fork1)), script.fork2)
      case ChangeToRoot => Detaches(script) && c.p == Detached(o, script, before).(atRoot := before.atRoot)
      case CloseAllFiles => Detaches(script) && c.p == Detached(o, script, before)
      case ReopenStreams => Detaches(script) && c.p == Detached(o, script, before).(files := ClosedBelow(before.files, Limit(script)))
      case Daemonized => Detaches(script) && !SomeStepFails(o, script) && IsDaemon(o, script, before, c.p)
      case Error => SomeStepFails(o, script) && !LeftBehind(script)
  }

  function Rank(dp: Daemon): nat {
    match dp
    case ForkBackground => 8
    case MakeSessionLeader => 7
    case ForkNoSessionLeader => 6
    case ClearMask => 5
    case ChangeToRoot => 4
    case CloseAllFiles => 3
    case ReopenStreams => 2
    case Daemonized => 1
    case Error => 0
  }

  lemma ProgressStep(o: Options, script: Script, before: Proc, c: Config)
    requires PosixIds(script, before) && Progress(o, script, before, c) && !Final(c)
    ensures Progress(o, script, before, Step(o, script, c))
  {
    if c.dp == ReopenStreams {
      ReopenProgress(o, script, before, c);
    }
  }

  /** Where it terminates, every round that does not end it goes on to a later step. */
  lemma StepDown(o: Options, script: Script, before: Proc, c: Config)
    requires PosixIds(script, before) && Halts(o, script) && Progress(o, script, before, c) && !Final(c)
    ensures var d := Step(o, script, c); !d.exited ==> Rank(d.dp) < Rank(c.dp)
  {
  }

  lemma ReopenProgress(o: Options, script: Script, before: Proc, c: Config)
    requires PosixIds(script, before) && Progress(o, script, before, c) && !c.exited && c.dp == ReopenStreams
    ensures Progress(o, script, before, Step(o, script, c))
  {
    var q := Detached(o, script, before);
    assert !Leader(q) && q.pid != q.pgid && q.sid != before.sid;
    assert c.p.files == ClosedBelow(before.files, Limit(script));
    if o.noReopen {
      assert DaemonFiles(o, Limit(script), before.files, c.p.files);
    } else if !script.openFails && !script.dupOutFails && !script.dupErrFails {
      StreamsReopened(o, Limit(script), before.files);
    }
  }

  lemma StreamsReopened(o: Options, limit: int, before: map<nat, File>)
    requires !o.noReopen
    ensures DaemonFiles(o, limit, before, Without(ClosedBelow(before, limit), 0)[0 := DevNull][1 := DevNull][2 := DevNull])
  {
  }

  // ----- The limits and the flags in figures -----

  /** The limit is the one the kernel names, as far as it is an int, and 8192 when the kernel names none. */
  lemma LimitExactly(script: Script)
    ensures 0 <= script.openMax <= 2147483647 ==> Limit(script) == script.openMax
    ensures script.openMax == -1 ==> Limit(script) == 8192
  {
  }

  /** The flags are octal 01, 02, 04 and 010. */
  lemma FlagBits()
    ensures Decode(0) == Options(false, false, false, false)
    ensures Decode(1) == Options(true, false, false, false)
    ensures Decode(2) == Options(false, true, false, false)
    ensures Decode(4) == Options(false, false, true, false)
    ensures Decode(8) == Options(false, false, false, true)
  {
  }

  /** Descriptor `fd` is one the loop closes. */
  predicate ToClose(script: Script, fd: nat) {
    (0 <= script.openMax <= 2147483647 && fd < script.openMax) || (script.openMax == -1 && fd < 8192)
  }

  /** Descriptor `fd` is beyond what the loop closes. */
  predicate Beyond(script: Script, fd: nat) {
    (0 <= script.openMax <= 2147483647 && fd >= script.openMax) || (script.openMax == -1 && fd >= 8192)
  }

  lemma DaemonDescriptors(o: Options, script: Script, before: Proc, after: Proc, fd: nat)
    requires IsDaemon(o, script, before, after)
    ensures fd >= 3 && ToClose(script, fd) ==> fd !in after.files
    ensures fd >= 3 && Beyond(script, fd) ==> (fd in after.files <==> fd in before.files) && (fd in before.files ==> after.files[fd] == before.files[fd])
    ensures fd < 3 && !o.noReopen ==> fd in after.files && after.files[fd] == DevNull
    ensures fd < 3 && o.noReopen && ToClose(script, fd) ==> fd !in after.files
  {
    LimitExactly(script);
    assert StdStream(fd) <==> fd < 3;
  }

  // ----- The imperative form -----

  /** The calling process, with the system calls `daemonize_` makes. */
  class Process {
    const script: Script
    var p: Proc
    var exited: bool

    constructor (script: Script, p: Proc)
      ensures this.script == script && this.p == p && !exited
    {
      this.script, this.p, exited := script, p, false;
    }

    /** The return value of `fork`: -1, 0 in the child, the id of the child in the parent. */
    method Fork(o: ForkOutcome) returns (r: int)
      modifies this`p
      ensures p == Forked(old(p), o)
      ensures r == match o case Failed => -1 case InChild(_) => 0 case InParent(child) => child
    {
      p := Forked(p, o);
      match o {
        case Failed => r := -1;
        case InChild(_) => r := 0;
        case InParent(child) => r := child;
      }
    }

    method Exit()
      modifies this`exited
      ensures exited
    {
      exited := true;
    }

    /** The switch over the result of `fork`: the parent exits. */
    method ForkTo(here: Daemon, outcome: ForkOutcome, next: Daemon) returns (dp: Daemon)
      requires !exited
      modifies this
      ensures Config(dp, p, exited) == ForkStep(Config(here, old(p), false), outcome, next)
    {
      var r := Fork(outcome);
      if r == -1 { return Error; }
      if r == 0 { return next; }
      Exit();
      dp := here;
    }

    method Setsid() returns (r: int)
      modifies this`p
      ensures r == if SetsidOk(old(p), script.setsidFails) then old(p).pid else -1
      ensures p == if SetsidOk(old(p), script.setsidFails) then NewSession(old(p)) else old(p)
    {
      if SetsidOk(p, script.setsidFails) {
        p := NewSession(p);
        return p.pid;
      }
      r := -1;
    }

    method Umask(mask: nat)
      modifies this`p
      ensures p == old(p).(mask := mask)
    {
      p := p.(mask := mask);
    }

    method ChdirRoot() returns (r: int)
      modifies this`p
      ensures r == if script.chdirFails then -1 else 0
      ensures p == if script.chdirFails then old(p) else old(p).(atRoot := true)
    {
      if script.chdirFails { return -1; }
      p := p.(atRoot := true);
      r := 0;
    }

    method Close(fd: nat)
      modifies this`p
      ensures p == old(p).(files := Without(old(p).files, fd))
    {
      p := p.(files := Without(p.files, fd));
    }

    /** `open( "/dev/null" , O_RDWR )`. */
    method OpenDevNull() returns (r: int)
      modifies this`p
      ensures script.openFails ==> r == -1 && p == old(p)
      ensures !script.openFails ==> r >= 0 && LowestFree(old(p).files, r) && p == old(p).(files := old(p).files[r as nat := DevNull])
    {
      if script.openFails { return -1; }
      var fd: nat := 0;
      ghost var above := p.files.Keys;
      while fd in p.files
        invariant forall k :: 0 <= k < fd ==> k in p.files
        invariant above == set k | k in p.files && k >= fd
        decreases above
      {
        above := above - {fd};
        fd := fd + 1;
      }
      p := p.(files := p.files[fd := DevNull]);
      r := fd;
    }

    /** `dup2( from , to )`. */
    method Dup2(from: nat, to: nat, fails: bool) returns (r: int)
      requires from in p.files
      modifies this`p
      ensures fails ==> r == -1 && p == old(p)
      ensures !fails ==> r == to && p == old(p).(files := old(p).files[to := old(p).files[from]])
    {
      if fails { return -1; }
      p := p.(files := p.files[to := p.files[from]]);
      r := to;
    }

    /** The loop over all descriptors. */
    method CloseAll()
      modifies this`p
      ensures p == old(p).(files := ClosedBelow(old(p).files, Limit(script)))
    {
      var maxfd := Truncated(script.openMax);
      if maxfd == -1 { maxfd := MAX_HANDLES; }
      var fd: nat := 0;
      assert p.files == ClosedBelow(p.files, 0);
      while fd < maxfd
        invariant maxfd >= 0 ==> fd <= maxfd
        invariant maxfd < 0 ==> fd == 0
        invariant p == old(p).(files := ClosedBelow(old(p).files, fd))
      {
        Close(fd);
        assert p.files == ClosedBelow(old(p).files, fd + 1);
        fd := fd + 1;
      }
      assert maxfd < 0 ==> ClosedBelow(old(p).files, 0) == ClosedBelow(old(p).files, maxfd);
    }

    /** The reopening of the standard streams. */
    method Reopen() returns (dp: Daemon)
      modifies this`p
      ensures Config(dp, p, false) == ReopenStep(script, old(p))
    {
      Close(0);
      var fd := OpenDevNull();
      if fd != 0 { return Error; }
      var r := Dup2(0, 1, script.dupOutFails);
      if r != 1 { return Error; }
      r := Dup2(0, 2, script.dupErrFails);
      if r != 2 { return Error; }
      dp := Daemonized;
    }

    /** The switch over the current step. */
    method Round(flags: bv64, dp: Daemon) returns (next: Daemon)
      requires !exited && dp != Daemonized && dp != Error
      modifies this
      ensures Config(next, p, exited) == Step(Decode(flags), script, Config(dp, old(p), false))
    {
      next := dp;
      match dp {
        case ForkBackground =>
          next := ForkTo(dp, script.fork1, MakeSessionLeader);
        case MakeSessionLeader =>
          var r := Setsid();
          next := if r == -1 then Error else ForkNoSessionLeader;
        case ForkNoSessionLeader =>
          next := ForkTo(dp, script.fork2, ClearMask);
        case ClearMask =>
          if !Bit(flags, NO_UMASK_0) { Umask(0); }
          next := ChangeToRoot;
        case ChangeToRoot =>
          if !Bit(flags, NO_CHDIR) { var r := ChdirRoot(); }
          next := CloseAllFiles;
        case CloseAllFiles =>
          if !Bit(flags, NO_CLOSE_FILES) {
            CloseAll();
            next := ReopenStreams;
          }
        case ReopenStreams =>
          if !Bit(flags, NO_REOPEN_STD_FDS) {
            next := Reopen();
          } else {
            next := Daemonized;
          }
      }
    }

    /**
     `daemonize_`, for the flags and kernels on which it terminates. `code` is its return value
     unless the process has exited.
     */
    method Run(flags: bv64) returns (code: int)
      requires PosixIds(script, p) && Halts(Decode(flags), script) && !exited
      modifies this
      ensures exited <==> LeftBehind(script)
      ensures !exited ==> (code == -1 <==> SomeStepFails(Decode(flags), script)) && (code == 0 <==> !SomeStepFails(Decode(flags), script))
      ensures !exited && code == 0 ==> IsDaemon(Decode(flags), script, old(p), p)
      ensures !exited && code == 0 ==> forall fd: nat :: fd >= 3 && ToClose(script, fd) ==> fd !in p.files
    {
      var dp := ForkBackground;
      ghost var before := p;
      ghost var o := Decode(flags);
      while dp != Error
        invariant !exited && dp != Daemonized
        invariant Progress(o, script, before, Config(dp, p, false))
        decreases Rank(dp)
      {
        ProgressStep(o, script, before, Config(dp, p, false));
        StepDown(o, script, before, Config(dp, p, false));
        dp := Round(flags, dp);
        if exited { return 0; }
        if dp == Daemonized { break; }
      }
      code := if dp != Error then 0 else -1;
      if dp != Error {
        forall fd: nat | fd >= 3 && ToClose(script, fd) ensures fd !in p.files {
          DaemonDescriptors(o, script, before, p, fd);
        }
      }
    }
  }
}
