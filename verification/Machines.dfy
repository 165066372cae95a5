/**
  The whole illusion: a process with a working directory, descriptors and a file tree, run under
  the interposer, mirrors at every moment the same process on an ordinary kernel whose tree has
  the destination's content at the source.
 */
module Machines {
  import opened CStrings
  import opened Components
  import opened CleanerLaws
  import opened Mapping
  import opened Policies
  import opened Rewriter
  import opened Locations
  import opened Walks
  import opened WorkingDirectory
  import opened FileStore
  import opened Views
  import opened FileCalls
  import opened HeldDirectories

  datatype Machine = Machine(store: Store, sys: Sys)

  datatype SysCall =
    | ChangeDir(path: string)
    | OpenDir(fd: int, arg: Arg)
    | OnFiles(call: FileCall, refused: bool)

  // ---------------------------------------------------------------- an ordinary kernel

  /** A call with its paths resolved to locations. */
  datatype KernelCall =
    | GoTo(p: Path)
    | Hold(fd: int, p: Path)
    | Change(op: Op, refused: bool)

  function FollowedAll(st: Store, op: Op, sys: Sys): Sys {
    Sys(Followed(st, op, sys.cwd), map fd | fd in sys.fds :: Followed(st, op, sys.fds[fd]))
  }

  function KernelStep(m: Machine, call: KernelCall): Machine {
    match call
    case GoTo(p) => if Get(m.store, p) == Some(Directory) then m.(sys := m.sys.(cwd := p)) else m
    case Hold(fd, p) =>
      if Get(m.store, p) == Some(Directory) then m.(sys := m.sys.(fds := m.sys.fds[fd := p])) else m
    case Change(op, refused) =>
      if refused then m else Machine(Apply(m.store, op), FollowedAll(m.store, op, m.sys))
  }

  // ---------------------------------------------------------------- the two ways to resolve a call

  /** Where the program's own name leads on the plain kernel: the location named, under its alias. */
  function PlainPlace(policy: Policy, sys: Sys, arg: Arg): Path
    requires policy.On?
  {
    Redirect(Parse(policy.to), Parse(policy.from), Place(sys, arg))
  }

  /** Under the interposer: wherever the handed-on arguments lead from the kernel's directories. */
  function HostCall(policy: Policy, sys: Sys, call: SysCall): KernelCall {
    match call
    case ChangeDir(path) => GoTo(IssuedPlace(policy, sys, Arg(AT_FDCWD, path)))
    case OpenDir(fd, arg) => Hold(fd, IssuedPlace(policy, sys, arg))
    case OnFiles(file, refused) => Change(Issued(policy, Event(sys, file, refused)), refused)
  }

  /** Without it: what the arguments name from the program's own directories. */
  function PlainCall(policy: Policy, sys: Sys, call: SysCall): KernelCall
    requires policy.On?
  {
    match call
    case ChangeDir(path) => GoTo(PlainPlace(policy, sys, Arg(AT_FDCWD, path)))
    case OpenDir(fd, arg) => Hold(fd, PlainPlace(policy, sys, arg))
    case OnFiles(file, refused) =>
      Change(Seen(policy, Event(sys, file, refused)), refused)
  }

  function HostMachine(policy: Policy, m: Machine, calls: seq<SysCall>): Machine
    decreases |calls|
  {
    if calls == [] then m
    else HostMachine(policy, KernelStep(m, HostCall(policy, m.sys, calls[0])), calls[1..])
  }

  function PlainMachine(policy: Policy, m: Machine, calls: seq<SysCall>): Machine
    requires policy.On?
    decreases |calls|
  {
    if calls == [] then m
    else PlainMachine(policy, KernelStep(m, PlainCall(policy, m.sys, calls[0])), calls[1..])
  }

  // ---------------------------------------------------------------- what a step of the host is

  function Directories(st: Store): set<Path> {
    set p | p in st && st[p] == Directory
  }

  /** A `chdir` of the whole process is the `chdir` of the working-directory runs, and touches nothing else. */
  lemma ChangeDirIsRealNext(policy: Policy, m: Machine, path: string)
    ensures HostMachine(policy, m, [ChangeDir(path)]) ==
            m.(sys := m.sys.(cwd := RealNext(policy, m.sys.cwd, Chdir(path, Directories(m.store)))))
  {
    SameFromCwd(policy, m.sys, path);
    ChdirKeepsDescriptor(policy, m.sys.cwd, path);
    assert Resolve(m.sys.cwd, "") == m.sys.cwd;
    hide AtArgument, Resolve, Answers, At;
  }

  /** From AT_FDCWD only the working directory matters. */
  lemma SameFromCwd(policy: Policy, sys: Sys, path: string)
    ensures AtArgument(policy, Answers(sys), AT_FDCWD, path, PATH_MAX) ==
            AtArgument(policy, Answers(At(sys.cwd)), AT_FDCWD, path, PATH_MAX)
  {
  }

  /** A directory opened through a fitting argument is held at the mapped location, if it is one. */
  lemma OpenDirHolds(policy: Policy, m: Machine, fd: int, arg: Arg)
    requires policy.On? && Usable(policy) && ValidSys(m.sys) && ArgFits(policy, m.sys, arg)
    ensures var place := Mapped(policy, Named(m.sys, if arg.Arg? then arg.dirfd else AT_FDCWD, arg.path));
            HostMachine(policy, m, [OpenDir(fd, arg)]) ==
            if Get(m.store, place) == Some(Directory) then m.(sys := m.sys.(fds := m.sys.fds[fd := place])) else m
  {
    PlaceIsMapped(policy, m.sys, arg);
    hide IssuedPlace, Parse, Named, ArgFits;
  }

  /** A file call changes the store as the run of calls does, and moves the held directories along. */
  lemma OnFilesIsHostRun(policy: Policy, m: Machine, file: FileCall, refused: bool)
    ensures var m' := HostMachine(policy, m, [OnFiles(file, refused)]);
            && m'.store == HostRun(policy, m.store, [Event(m.sys, file, refused)])
            && m'.sys.fds.Keys == m.sys.fds.Keys
            && (refused ==> m' == m)
  {
    hide Issued, Apply, Followed;
    assert [Event(m.sys, file, refused)][..0] == [];
  }

  // ---------------------------------------------------------------- mirroring

  ghost predicate SysReflects(a: Path, b: Path, host: Sys, plain: Sys) {
    && Reflects(a, b, host.cwd, plain.cwd)
    && host.fds.Keys == plain.fds.Keys
    && forall fd | fd in plain.fds :: Reflects(a, b, host.fds[fd], plain.fds[fd])
  }

  ghost predicate Mirrors(a: Path, b: Path, host: Machine, plain: Machine) {
    View(a, b, host.store) == plain.store && SysReflects(a, b, host.sys, plain.sys)
  }

  /** Every process whose directories lie outside the source has a mirror to start from. */
  lemma StartingMirror(a: Path, b: Path, host: Machine)
    requires Separate(a, b) && ValidSys(host.sys)
    requires !(a <= host.sys.cwd) && forall fd | fd in host.sys.fds :: !(a <= host.sys.fds[fd])
    ensures Mirrors(a, b, host,
                    Machine(View(a, b, host.store),
                            Sys(Redirect(b, a, host.sys.cwd),
                                map fd | fd in host.sys.fds :: Redirect(b, a, host.sys.fds[fd]))))
  {
    Aliases(a, b, host.sys.cwd);
    forall fd | fd in host.sys.fds
      ensures Reflects(a, b, host.sys.fds[fd], Redirect(b, a, host.sys.fds[fd]))
    {
      Aliases(a, b, host.sys.fds[fd]);
    }
  }

  function Args(call: SysCall): set<Arg> {
    match call
    case ChangeDir(path) => {Arg(AT_FDCWD, path)}
    case OpenDir(fd, arg) => {arg}
    case OnFiles(LinkAt(x, y), refused) => {x, y}
    case OnFiles(RenameAt(x, y), refused) => {x, y}
    case OnFiles(file, refused) => {file.arg}
  }

  /** The argument fits on the host, absolute-only ones included, and is followed from the program's directory. */
  predicate GoodArg(policy: Policy, host: Sys, plain: Sys, arg: Arg)
    requires policy.On?
  {
    && ArgFits(policy, host, arg)
    && Follows(Parse(policy.from), Parse(policy.to), BaseOf(plain, Start(arg)), arg.path)
  }

  /** A carried-out rename moves every directory the process holds alike. */
  ghost predicate HoldsAlike(a: Path, b: Path, st: Store, sys: Sys, op: Op) {
    op.Rename? && CanRename(View(a, b, st), op.source, op.target) ==>
      && HeldAlike(a, b, op.source, op.target, sys.cwd)
      && forall fd | fd in sys.fds :: HeldAlike(a, b, op.source, op.target, sys.fds[fd])
  }

  ghost predicate GoodArgs(policy: Policy, host: Sys, plain: Sys, call: SysCall)
    requires policy.On?
  {
    forall arg | arg in Args(call) :: GoodArg(policy, host, plain, arg)
  }

  /** Every directory the process holds still exists. */
  ghost predicate Holding(m: Machine) {
    && Get(m.store, m.sys.cwd) == Some(Directory)
    && forall fd | fd in m.sys.fds :: Get(m.store, m.sys.fds[fd]) == Some(Directory)
  }

  /** The operation removes a directory the process holds. */
  ghost predicate RemovesHeld(m: Machine, op: Op) {
    op.Remove? &&
    (Changes(m.store, op, m.sys.cwd) || exists fd | fd in m.sys.fds :: Changes(m.store, op, m.sys.fds[fd]))
  }

  /**
    The call's arguments are good and its operation is faithful in the store it meets; it moves the held
    directories alike if some of them no longer exist.
   */
  ghost predicate GoodCall(policy: Policy, host: Machine, plain: Machine, call: SysCall)
    requires policy.On?
  {
    && GoodArgs(policy, host.sys, plain.sys, call)
    && (call.OnFiles? && !call.refused ==>
          var f, t, op := Parse(policy.from), Parse(policy.to), PlainCall(policy, plain.sys, call).op;
          Faithful(f, t, host.store, op) && (Holding(host) || HoldsAlike(f, t, host.store, plain.sys, op)))
  }

  /** The call's arguments are good, its operation is faithful, and it removes no held directory. */
  ghost predicate TidyCall(policy: Policy, host: Machine, plain: Machine, call: SysCall)
    requires policy.On?
  {
    && GoodArgs(policy, host.sys, plain.sys, call)
    && (call.OnFiles? && !call.refused ==>
          && Faithful(Parse(policy.from), Parse(policy.to), host.store, PlainCall(policy, plain.sys, call).op)
          && !RemovesHeld(host, HostCall(policy, host.sys, call).op))
  }

  ghost predicate GoodCalls(policy: Policy, host: Machine, plain: Machine, calls: seq<SysCall>)
    requires policy.On?
    decreases |calls|
  {
    calls != [] ==>
      && GoodCall(policy, host, plain, calls[0])
      && GoodCalls(policy, KernelStep(host, HostCall(policy, host.sys, calls[0])),
                   KernelStep(plain, PlainCall(policy, plain.sys, calls[0])), calls[1..])
  }

  ghost predicate TidyCalls(policy: Policy, host: Machine, plain: Machine, calls: seq<SysCall>)
    requires policy.On?
    decreases |calls|
  {
    calls != [] ==>
      && TidyCall(policy, host, plain, calls[0])
      && TidyCalls(policy, KernelStep(host, HostCall(policy, host.sys, calls[0])),
                   KernelStep(plain, PlainCall(policy, plain.sys, calls[0])), calls[1..])
  }

  /** Where an argument leads on the host is the image of where it leads on the plain kernel. */
  lemma PlaceReflects(policy: Policy, host: Machine, plain: Machine, arg: Arg)
    requires policy.On? && Disjoint(policy) && Mirrors(Parse(policy.from), Parse(policy.to), host, plain)
    requires GoodArg(policy, host.sys, plain.sys, arg)
    ensures Reflects(Parse(policy.from), Parse(policy.to), IssuedPlace(policy, host.sys, arg),
                     PlainPlace(policy, plain.sys, arg))
  {
    var f, t := Parse(policy.from), Parse(policy.to);
    assert ValidSys(host.sys);
    PlaceIsMapped(policy, host.sys, arg);
    NamedIsPath(host.sys, Start(arg), arg.path);
    RedirectIsPath(f, t, Place(host.sys, arg));
    if !IsAbsolute(arg.path) {
      assert BaseOf(host.sys, Start(arg)) == Redirect(f, t, BaseOf(plain.sys, Start(arg)));
      FollowsExactly(f, t, BaseOf(plain.sys, Start(arg)), arg.path);
    }
    Aliases(f, t, Place(plain.sys, arg));
  }

  /** A lookup through any fitting, followed argument finds on the host what it finds on the plain kernel. */
  lemma SameAnswers(policy: Policy, host: Machine, plain: Machine, arg: Arg)
    requires policy.On? && Disjoint(policy) && Mirrors(Parse(policy.from), Parse(policy.to), host, plain)
    requires GoodArg(policy, host.sys, plain.sys, arg)
    ensures Get(host.store, IssuedPlace(policy, host.sys, arg)) == Get(plain.store, PlainPlace(policy, plain.sys, arg))
  {
    PlaceReflects(policy, host, plain, arg);
    ViewGet(Parse(policy.from), Parse(policy.to), host.store, PlainPlace(policy, plain.sys, arg));
  }

  /** `getcwd` on the host answers the plain kernel's working directory, when its buffer holds both names. */
  lemma SameGetcwd(policy: Policy, host: Machine, plain: Machine, size: nat)
    requires policy.On? && Disjoint(policy) && Canonical(policy.to)
    requires Mirrors(Parse(policy.from), Parse(policy.to), host, plain)
    requires |Render(true, host.sys.cwd)| + 1 <= size && |Render(true, plain.sys.cwd)| + 1 <= size
    ensures Getcwd(policy, host.sys.cwd, size) == Some(Render(true, plain.sys.cwd))
  {
    hide Render;
    Aliases(Parse(policy.from), Parse(policy.to), plain.sys.cwd);
    RedirectIsPath(Parse(policy.to), Parse(policy.from), host.sys.cwd);
    AliasIsVirtual(policy, plain.sys.cwd);
    GetcwdAnswers(policy, plain.sys.cwd, size);
  }

  lemma AllHeldReflect(a: Path, b: Path, st: Store, op: Op, host: Sys, plain: Sys)
    requires Separate(a, b) && Redirected(b, a, op) == op && Faithful(a, b, st, op)
    requires op.Rename? ==> IsPath(Redirect(a, b, op.target))
    requires SysReflects(a, b, host, plain)
    ensures SysReflects(a, b, FollowedAll(st, Redirected(a, b, op), host), FollowedAll(View(a, b, st), op, plain)) <==>
            HoldsAlike(a, b, st, plain, op)
  {
    hide Followed, View, Redirect, Redirected, Reflects, IsPath, Faithful, HeldAlike, CanRename;
    var host', plain' := FollowedAll(st, Redirected(a, b, op), host), FollowedAll(View(a, b, st), op, plain);
    HeldReflects(a, b, st, op, host.cwd, plain.cwd);
    forall fd | fd in plain.fds
      ensures Reflects(a, b, host'.fds[fd], plain'.fds[fd]) <==>
              (op.Rename? && CanRename(View(a, b, st), op.source, op.target) ==>
                 HeldAlike(a, b, op.source, op.target, plain.fds[fd]))
    {
      HeldReflects(a, b, st, op, host.fds[fd], plain.fds[fd]);
    }
    if op.Rename? && CanRename(View(a, b, st), op.source, op.target) && SysReflects(a, b, host', plain') {
      forall fd | fd in plain.fds ensures HeldAlike(a, b, op.source, op.target, plain.fds[fd]) {
        assert fd in plain'.fds && Reflects(a, b, host'.fds[fd], plain'.fds[fd]);
      }
    }
  }

  /** One file operation keeps the mirror exactly when it is faithful and moves the held directories alike. */
  lemma ChangeMirrorsExactly(a: Path, b: Path, host: Machine, plain: Machine, op: Op)
    requires Separate(a, b) && Mirrors(a, b, host, plain) && Redirected(b, a, op) == op
    requires op.Rename? ==> IsPath(Redirect(a, b, op.target))
    ensures Mirrors(a, b, KernelStep(host, Change(Redirected(a, b, op), false)),
                    KernelStep(plain, Change(op, false))) <==>
            Faithful(a, b, host.store, op) && HoldsAlike(a, b, host.store, plain.sys, op)
  {
    hide FollowedAll, View, Apply, Redirect, Redirected, SysReflects, IsPath, Faithful, HoldsAlike;
    RedirectedTwice(a, b, op);
    StepCommutesExactly(a, b, host.store, op);
    if Faithful(a, b, host.store, op) {
      AllHeldReflect(a, b, host.store, op, host.sys, plain.sys);
    }
  }

  /** A faithful operation moves every held directory alike while all of them exist. */
  lemma HoldingHoldsAlike(a: Path, b: Path, host: Machine, plain: Machine, op: Op)
    requires Separate(a, b) && Mirrors(a, b, host, plain) && Redirected(b, a, op) == op
    requires Faithful(a, b, host.store, op) && Holding(host)
    ensures HoldsAlike(a, b, host.store, plain.sys, op)
  {
    hide View, Redirect, IsPath, Faithful, HeldAlike, CanRename;
    if op.Rename? && CanRename(View(a, b, host.store), op.source, op.target) {
      var x, y := op.source, op.target;
      Aliases(a, b, x);
      Aliases(a, b, y);
      ExistingHeldAlike(a, b, host.store, x, y, plain.sys.cwd);
      forall fd | fd in plain.sys.fds ensures HeldAlike(a, b, x, y, plain.sys.fds[fd]) {
        assert Reflects(a, b, host.sys.fds[fd], plain.sys.fds[fd]);
        ExistingHeldAlike(a, b, host.store, x, y, plain.sys.fds[fd]);
      }
    }
  }

  /** While every held directory exists, one file operation keeps the mirror exactly when it is faithful. */
  lemma FaithfulMirrorsExactly(a: Path, b: Path, host: Machine, plain: Machine, op: Op)
    requires Separate(a, b) && Mirrors(a, b, host, plain) && Redirected(b, a, op) == op && Holding(host)
    requires op.Rename? ==> IsPath(Redirect(a, b, op.target))
    ensures Mirrors(a, b, KernelStep(host, Change(Redirected(a, b, op), false)),
                    KernelStep(plain, Change(op, false))) <==>
            Faithful(a, b, host.store, op)
  {
    hide View, Redirect, Redirected, IsPath, Faithful, HoldsAlike, Mirrors, KernelStep, Holding;
    ChangeMirrorsExactly(a, b, host, plain, op);
    if Faithful(a, b, host.store, op) {
      HoldingHoldsAlike(a, b, host, plain, op);
    }
  }

  /** Held directories all exist after an operation, if they did before, exactly when it removed none of them. */
  lemma HoldingKept(m: Machine, op: Op)
    requires Holding(m)
    ensures Holding(KernelStep(m, Change(op, false))) <==> !RemovesHeld(m, op)
  {
    hide Apply, Followed, Changes, Get;
    var m' := KernelStep(m, Change(op, false));
    HeldKept(m.store, op, m.sys.cwd);
    forall fd | fd in m.sys.fds
      ensures Get(m'.store, m'.sys.fds[fd]) == Some(Directory) <==>
              !(op.Remove? && Changes(m.store, op, m.sys.fds[fd]))
    {
      HeldKept(m.store, op, m.sys.fds[fd]);
    }
    if Holding(m') {
      forall fd | fd in m.sys.fds ensures !(op.Remove? && Changes(m.store, op, m.sys.fds[fd])) {
        assert fd in m'.sys.fds && Get(m'.store, m'.sys.fds[fd]) == Some(Directory);
      }
    }
  }

  /** Away from the ancestors of the roots every operation with good arguments is a good call. */
  lemma ClearIsGood(a: Path, b: Path, st: Store, sys: Sys, op: Op)
    requires Separate(a, b) && ClearOp(a, b, op) && Redirected(b, a, op) == op
    requires !(b <= sys.cwd) && forall fd | fd in sys.fds :: !(b <= sys.fds[fd])
    ensures Faithful(a, b, st, op) && HoldsAlike(a, b, st, sys, op)
  {
    ClearIsFaithful(a, b, st, op);
    hide View, CanRename, Redirect, Faithful;
    if op.Rename? {
      Aliases(a, b, op.source);
      Aliases(a, b, op.target);
      ClearMovesAlike(a, b, op.source, op.target, sys.cwd);
      forall fd | fd in sys.fds ensures HeldAlike(a, b, op.source, op.target, sys.fds[fd]) {
        ClearMovesAlike(a, b, op.source, op.target, sys.fds[fd]);
      }
    }
  }

  lemma ArgReflects(policy: Policy, host: Machine, plain: Machine, call: SysCall, arg: Arg)
    requires policy.On? && Disjoint(policy) && Mirrors(Parse(policy.from), Parse(policy.to), host, plain)
    requires GoodArgs(policy, host.sys, plain.sys, call) && arg in Args(call)
    ensures var f, t, place := Parse(policy.from), Parse(policy.to), PlainPlace(policy, plain.sys, arg);
            && IssuedPlace(policy, host.sys, arg) == Redirect(f, t, place)
            && Redirect(t, f, place) == place && IsPath(Redirect(f, t, place))
  {
    hide View, Redirect, IssuedPlace, Place, GoodArg, Parse, Mirrors, IsPath;
    PlaceReflects(policy, host, plain, arg);
    RedirectOnce(Parse(policy.to), Parse(policy.from), Place(plain.sys, arg));
  }

  /** The host's operation is the image of the plain kernel's. */
  lemma FileOpReflects(policy: Policy, host: Machine, plain: Machine, call: SysCall)
    requires policy.On? && Disjoint(policy) && Mirrors(Parse(policy.from), Parse(policy.to), host, plain)
    requires GoodArgs(policy, host.sys, plain.sys, call) && call.OnFiles?
    ensures var f, t := Parse(policy.from), Parse(policy.to);
            var op := PlainCall(policy, plain.sys, call).op;
            && HostCall(policy, host.sys, call).op == Redirected(f, t, op)
            && Redirected(t, f, op) == op
            && (op.Rename? ==> IsPath(Redirect(f, t, op.target)))
  {
    hide View, Redirect, IssuedPlace, Place, GoodArg, Parse, Mirrors, IsPath;
    match call.call
    case OpenAt(arg, _) => ArgReflects(policy, host, plain, call, arg);
    case MkdirAt(arg) => ArgReflects(policy, host, plain, call, arg);
    case UnlinkAt(arg, _) => ArgReflects(policy, host, plain, call, arg);
    case LinkAt(x, y) =>
      ArgReflects(policy, host, plain, call, x);
      ArgReflects(policy, host, plain, call, y);
    case RenameAt(x, y) =>
      ArgReflects(policy, host, plain, call, x);
      ArgReflects(policy, host, plain, call, y);
  }

  lemma StepMirrors(policy: Policy, host: Machine, plain: Machine, call: SysCall)
    requires policy.On? && Disjoint(policy) && Mirrors(Parse(policy.from), Parse(policy.to), host, plain)
    requires GoodCall(policy, host, plain, call)
    ensures Mirrors(Parse(policy.from), Parse(policy.to),
                    KernelStep(host, HostCall(policy, host.sys, call)),
                    KernelStep(plain, PlainCall(policy, plain.sys, call)))
  {
    hide View, Redirect, Reflects, Apply, Followed, IssuedPlace, Place, GoodArg;
    hide Get, Faithful, HoldsAlike, Holding, Redirected, Parse, IsPath;
    match call
    case ChangeDir(path) =>
      assert Arg(AT_FDCWD, path) in Args(call);
      PlaceReflects(policy, host, plain, Arg(AT_FDCWD, path));
      SameAnswers(policy, host, plain, Arg(AT_FDCWD, path));
    case OpenDir(fd, arg) =>
      assert arg in Args(call);
      PlaceReflects(policy, host, plain, arg);
      SameAnswers(policy, host, plain, arg);
    case OnFiles(file, refused) =>
      if !refused {
        var op := PlainCall(policy, plain.sys, call).op;
        FileOpReflects(policy, host, plain, call);
        if Holding(host) {
          FaithfulMirrorsExactly(Parse(policy.from), Parse(policy.to), host, plain, op);
        } else {
          ChangeMirrorsExactly(Parse(policy.from), Parse(policy.to), host, plain, op);
        }
      }
  }

  /**
    The illusion over whole runs, of any mix of `chdir`, directory opens and file-tree calls:
    the interposed process and the plain one mirror each other at the end as at the start.  As
    everywhere, a call refused for a reason outside this model is refused to both.
   */
  lemma {:induction false} RunsMirror(policy: Policy, host: Machine, plain: Machine, calls: seq<SysCall>)
    requires policy.On? && Disjoint(policy) && Mirrors(Parse(policy.from), Parse(policy.to), host, plain)
    requires GoodCalls(policy, host, plain, calls)
    ensures Mirrors(Parse(policy.from), Parse(policy.to),
                    HostMachine(policy, host, calls), PlainMachine(policy, plain, calls))
    decreases |calls|
  {
    if calls != [] {
      StepMirrors(policy, host, plain, calls[0]);
      RunsMirror(policy, KernelStep(host, HostCall(policy, host.sys, calls[0])),
                 KernelStep(plain, PlainCall(policy, plain.sys, calls[0])), calls[1..]);
    }
  }

  lemma TidyStep(policy: Policy, host: Machine, plain: Machine, call: SysCall)
    requires policy.On? && Holding(host) && TidyCall(policy, host, plain, call)
    ensures GoodCall(policy, host, plain, call) && Holding(KernelStep(host, HostCall(policy, host.sys, call)))
  {
    hide Faithful, GoodArgs, HoldsAlike, RemovesHeld, IssuedPlace, Issued, PlainCall, Apply, Followed;
    if call.OnFiles? && !call.refused {
      HoldingKept(host, HostCall(policy, host.sys, call).op);
    }
  }

  /**
    A process whose directories exist, and that removes none it holds: with good arguments and
    faithful operations the two mirror each other throughout, and the directories still exist.
   */
  lemma {:induction false} TidyRunsMirror(policy: Policy, host: Machine, plain: Machine, calls: seq<SysCall>)
    requires policy.On? && Disjoint(policy) && Mirrors(Parse(policy.from), Parse(policy.to), host, plain)
    requires Holding(host) && TidyCalls(policy, host, plain, calls)
    ensures Mirrors(Parse(policy.from), Parse(policy.to),
                    HostMachine(policy, host, calls), PlainMachine(policy, plain, calls))
    ensures Holding(HostMachine(policy, host, calls)) && GoodCalls(policy, host, plain, calls)
    decreases |calls|
  {
    hide KernelStep, HostCall, PlainCall, GoodCall, TidyCall, Mirrors, Holding, Disjoint;
    if calls != [] {
      TidyStep(policy, host, plain, calls[0]);
      StepMirrors(policy, host, plain, calls[0]);
      TidyRunsMirror(policy, KernelStep(host, HostCall(policy, host.sys, calls[0])),
                     KernelStep(plain, PlainCall(policy, plain.sys, calls[0])), calls[1..]);
    }
  }

  // ---------------------------------------------------------------- isolation

  function SourceAfter(policy: Policy, host: Machine, calls: seq<SysCall>, k: nat): Store
    requires policy.On? && k <= |calls|
  {
    Subtree(Parse(policy.from), HostMachine(policy, host, calls[..k]).store)
  }

  /** The call leaves the real source tree alone in the machine it meets. */
  predicate SparesCall(policy: Policy, m: Machine, call: SysCall)
    requires policy.On?
  {
    call.OnFiles? && !call.refused ==> Spares(Parse(policy.from), m.store, HostCall(policy, m.sys, call).op)
  }

  lemma {:induction false} HostMachineNext(policy: Policy, host: Machine, calls: seq<SysCall>, k: nat)
    requires k < |calls|
    ensures var m := HostMachine(policy, host, calls[..k]);
            HostMachine(policy, host, calls[..k + 1]) == KernelStep(m, HostCall(policy, m.sys, calls[k]))
    decreases k
  {
    hide KernelStep, HostCall;
    if k > 0 {
      assert calls[..k][1..] == calls[1..][..k - 1] && calls[..k + 1][1..] == calls[1..][..k];
      HostMachineNext(policy, KernelStep(host, HostCall(policy, host.sys, calls[0])), calls[1..], k - 1);
    }
  }

  lemma CallKeepsSource(policy: Policy, host: Machine, calls: seq<SysCall>, k: nat)
    requires policy.On? && k < |calls|
    ensures SourceAfter(policy, host, calls, k + 1) == SourceAfter(policy, host, calls, k) <==>
            SparesCall(policy, HostMachine(policy, host, calls[..k]), calls[k])
  {
    hide HostMachine, Issued, IssuedPlace, Subtree, Spares, Apply, Parse, FollowedAll;
    var m := HostMachine(policy, host, calls[..k]);
    HostMachineNext(policy, host, calls, k);
    if calls[k].OnFiles? {
      StepIsolatedExactly(Parse(policy.from), m.store, HostCall(policy, m.sys, calls[k]).op);
    }
  }

  lemma {:induction false} SourceKeptBy(policy: Policy, host: Machine, calls: seq<SysCall>, k: nat)
    requires policy.On? && k <= |calls|
    requires forall i | 0 <= i < k :: SparesCall(policy, HostMachine(policy, host, calls[..i]), calls[i])
    ensures SourceAfter(policy, host, calls, k) == Subtree(Parse(policy.from), host.store)
  {
    hide SparesCall, Subtree;
    if k > 0 {
      SourceKeptBy(policy, host, calls, k - 1);
      CallKeepsSource(policy, host, calls, k - 1);
    }
  }

  /**
    Whole-process runs of any calls, whatever their arguments, keep the real subtree at the source
    unchanged throughout exactly when each file call spares it.
   */
  lemma RunsAreIsolated(policy: Policy, host: Machine, calls: seq<SysCall>)
    requires policy.On?
    ensures (forall k | 0 <= k <= |calls| ::
               SourceAfter(policy, host, calls, k) == Subtree(Parse(policy.from), host.store)) <==>
            (forall i | 0 <= i < |calls| :: SparesCall(policy, HostMachine(policy, host, calls[..i]), calls[i]))
  {
    hide SourceAfter, SparesCall, Subtree, HostMachine;
    if forall i | 0 <= i < |calls| :: SparesCall(policy, HostMachine(policy, host, calls[..i]), calls[i]) {
      forall k | 0 <= k <= |calls|
        ensures SourceAfter(policy, host, calls, k) == Subtree(Parse(policy.from), host.store)
      {
        SourceKeptBy(policy, host, calls, k);
      }
    }
    if forall k | 0 <= k <= |calls| ::
         SourceAfter(policy, host, calls, k) == Subtree(Parse(policy.from), host.store) {
      forall i | 0 <= i < |calls| ensures SparesCall(policy, HostMachine(policy, host, calls[..i]), calls[i]) {
        CallKeepsSource(policy, host, calls, i);
        assert SourceAfter(policy, host, calls, i) == SourceAfter(policy, host, calls, i + 1);
      }
    }
  }

  lemma CallIsIsolated(policy: Policy, host: Machine, plain: Machine, call: SysCall)
    requires policy.On? && Disjoint(policy) && Mirrors(Parse(policy.from), Parse(policy.to), host, plain)
    requires GoodCall(policy, host, plain, call)
    ensures Subtree(Parse(policy.from), KernelStep(host, HostCall(policy, host.sys, call)).store) ==
            Subtree(Parse(policy.from), host.store)
  {
    hide View, Redirect, Reflects, Apply, Followed, IssuedPlace, Place, GoodArg, Parse, IsPath, Mirrors, Subtree;
    if call.OnFiles? && !call.refused {
      var op := PlainCall(policy, plain.sys, call).op;
      FileOpReflects(policy, host, plain, call);
      FaithfulSpares(Parse(policy.from), Parse(policy.to), host.store, op);
      RedirectedOutside(Parse(policy.from), Parse(policy.to), op);
      StepIsolatedExactly(Parse(policy.from), host.store, Redirected(Parse(policy.from), Parse(policy.to), op));
    }
  }

  /** A run of good calls leaves the real subtree at the source root as it was. */
  lemma {:induction false} GoodRunsAreIsolated(policy: Policy, host: Machine, plain: Machine, calls: seq<SysCall>)
    requires policy.On? && Disjoint(policy) && Mirrors(Parse(policy.from), Parse(policy.to), host, plain)
    requires GoodCalls(policy, host, plain, calls)
    ensures Subtree(Parse(policy.from), HostMachine(policy, host, calls).store) ==
            Subtree(Parse(policy.from), host.store)
    decreases |calls|
  {
    hide KernelStep, HostCall, PlainCall, GoodCall, Mirrors, Subtree, Disjoint;
    if calls != [] {
      CallIsIsolated(policy, host, plain, calls[0]);
      StepMirrors(policy, host, plain, calls[0]);
      GoodRunsAreIsolated(policy, KernelStep(host, HostCall(policy, host.sys, calls[0])),
                          KernelStep(plain, PlainCall(policy, plain.sys, calls[0])), calls[1..]);
    }
  }

  /** What looks like the plain operation takes nothing from the real source tree and brings nothing there. */
  lemma FaithfulSpares(a: Path, b: Path, st: Store, op: Op)
    requires Separate(a, b) && Redirected(b, a, op) == op && Faithful(a, b, st, op)
    ensures Spares(a, st, Redirected(a, b, op))
  {
    RedirectedOutside(a, b, op);
    if op.Rename? {
      Aliases(a, b, op.source);
      Aliases(a, b, op.target);
      AboveIsItself(a, b, op.source);
      AboveIsItself(a, b, op.target);
      hide CanRename, View, Bare;
      SparesOutside(a, st, Redirected(a, b, op));
    }
  }

  lemma AboveIsItself(a: Path, b: Path, x: Path)
    requires Separate(a, b)
    ensures Redirect(a, b, x) < a ==> Redirect(a, b, x) == x
  {
    if a <= x {
      assert b <= Redirect(a, b, x);
    }
  }
}
