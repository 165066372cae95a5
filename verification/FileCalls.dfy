/**
  Whole runs of at-calls: what they do to the real subtree at the source, how they look through
  the mapping, and what a program reads back.
 */
module FileCalls {
  import opened CStrings
  import opened Components
  import opened Mapping
  import opened Policies
  import opened Rewriter
  import opened Locations
  import opened Walks
  import opened WorkingDirectory
  import opened FileStore
  import opened Views

  // ---------------------------------------------------------------- calls and runs

  /** The path of an at-call, with its descriptor, or of a call that rewrites absolute paths only. */
  datatype Arg = Arg(dirfd: int, path: string) | AbsoluteOnly(path: string)

  /** `link` and `rename` are the at-calls from AT_FDCWD. */
  type AtArg = arg: Arg | arg.Arg? witness Arg(AT_FDCWD, "")

  /** File calls: with an absolute-only argument the first three are `open`, `mkdir`, and `unlink` or `rmdir`. */
  datatype FileCall =
    | OpenAt(arg: Arg, ino: int)
    | MkdirAt(arg: Arg)
    | UnlinkAt(arg: Arg, directory: bool)
    | LinkAt(oldArg: AtArg, newArg: AtArg)
    | RenameAt(oldArg: AtArg, newArg: AtArg)

  /** A call, the directories the process then holds, and whether the kernel refuses it for other reasons. */
  datatype Event = Event(sys: Sys, call: FileCall, refused: bool)

  /** The descriptor a relative path starts from. */
  function Start(arg: Arg): int {
    if arg.Arg? then arg.dirfd else AT_FDCWD
  }

  function Place(sys: Sys, arg: Arg): Path {
    Named(sys, Start(arg), arg.path)
  }

  /** Where the argument the interposer hands on leads. */
  function IssuedPlace(policy: Policy, sys: Sys, arg: Arg): Path {
    match arg
    case Arg(dirfd, path) =>
      var (dirfd', path') := AtArgument(policy, Answers(sys), dirfd, path, PATH_MAX);
      Named(sys, dirfd', path')
    case AbsoluteOnly(path) => Resolve(sys.cwd, PathArgument(policy, path, PATH_MAX))
  }

  function Intended(e: Event): Op {
    match e.call
    case OpenAt(arg, ino) => Create(Place(e.sys, arg), ino)
    case MkdirAt(arg) => MakeDir(Place(e.sys, arg))
    case UnlinkAt(arg, directory) => Remove(Place(e.sys, arg), directory)
    case LinkAt(x, y) => Link(Place(e.sys, x), Place(e.sys, y))
    case RenameAt(x, y) => Rename(Place(e.sys, x), Place(e.sys, y))
  }

  function Issued(policy: Policy, e: Event): Op {
    match e.call
    case OpenAt(arg, ino) => Create(IssuedPlace(policy, e.sys, arg), ino)
    case MkdirAt(arg) => MakeDir(IssuedPlace(policy, e.sys, arg))
    case UnlinkAt(arg, directory) => Remove(IssuedPlace(policy, e.sys, arg), directory)
    case LinkAt(x, y) => Link(IssuedPlace(policy, e.sys, x), IssuedPlace(policy, e.sys, y))
    case RenameAt(x, y) => Rename(IssuedPlace(policy, e.sys, x), IssuedPlace(policy, e.sys, y))
  }

  /** The argument reaches the mapped location: it fits, or it passes unchanged and has nothing to map. */
  predicate ArgFits(policy: Policy, sys: Sys, arg: Arg) {
    && arg.path != "" && Known(sys, Start(arg), arg.path)
    && if arg.AbsoluteOnly? && !IsAbsolute(arg.path)
       then policy.On? ==> !(Parse(policy.from) <= Place(sys, arg))
       else ResolutionFits(policy, sys, Start(arg), arg.path)
  }

  ghost predicate Fits(policy: Policy, e: Event) {
    && ValidSys(e.sys)
    && match e.call
       case LinkAt(x, y) => ArgFits(policy, e.sys, x) && ArgFits(policy, e.sys, y)
       case RenameAt(x, y) => ArgFits(policy, e.sys, x) && ArgFits(policy, e.sys, y)
       case _ => ArgFits(policy, e.sys, e.call.arg)
  }

  lemma PlaceIsMapped(policy: Policy, sys: Sys, arg: Arg)
    requires policy.On? && Usable(policy) && ValidSys(sys) && ArgFits(policy, sys, arg)
    ensures IssuedPlace(policy, sys, arg) == Redirect(Parse(policy.from), Parse(policy.to), Place(sys, arg))
  {
    hide Parse, Resolve;
    if arg.Arg? || IsAbsolute(arg.path) {
      AtCallMeaning(policy, sys, Start(arg), arg.path);
      if arg.AbsoluteOnly? {
        PathIsCwdArgument(policy, sys, arg.path);
      }
    }
  }

  /** Of an absolute path both kinds of calls make the same. */
  lemma PathIsCwdArgument(policy: Policy, sys: Sys, path: string)
    requires IsAbsolute(path)
    ensures AtArgument(policy, Answers(sys), AT_FDCWD, path, PATH_MAX) ==
            (AT_FDCWD, PathArgument(policy, path, PATH_MAX))
  {
  }

  /** A call reaches the real source tree through exactly the arguments that do not fit. */
  lemma ReachesSourceExactly(policy: Policy, sys: Sys, arg: Arg)
    requires policy.On? && Disjoint(policy) && ValidSys(sys) && arg.path != "" && Known(sys, Start(arg), arg.path)
    ensures Parse(policy.from) <= IssuedPlace(policy, sys, arg) <==> !ArgFits(policy, sys, arg)
  {
    var f, t := Parse(policy.from), Parse(policy.to);
    RedirectOnce(f, t, Place(sys, arg));
    hide Parse, Resolve, Redirect;
    if ArgFits(policy, sys, arg) {
      PlaceIsMapped(policy, sys, arg);
    } else if arg.Arg? || IsAbsolute(arg.path) {
      ReplacedExactly(policy, sys, Start(arg), arg.path, PATH_MAX);
      if arg.AbsoluteOnly? {
        PathIsCwdArgument(policy, sys, arg.path);
      }
    }
  }

  /** A fitting call acts on the mapped locations, each path resolved with its own descriptor. */
  lemma IssuedIsRedirected(policy: Policy, e: Event)
    requires policy.On? && Usable(policy) && Fits(policy, e)
    ensures Issued(policy, e) == Redirected(Parse(policy.from), Parse(policy.to), Intended(e))
  {
    hide Place, IssuedPlace, Redirect, ArgFits, Parse;
    match e.call
    case LinkAt(x, y) => PlaceIsMapped(policy, e.sys, x); PlaceIsMapped(policy, e.sys, y);
    case RenameAt(x, y) => PlaceIsMapped(policy, e.sys, x); PlaceIsMapped(policy, e.sys, y);
    case _ => PlaceIsMapped(policy, e.sys, e.call.arg);
  }

  /** The kernel under the interposed calls. */
  function HostRun(policy: Policy, st: Store, events: seq<Event>): Store {
    if events == [] then st
    else
      var last, before := events[|events| - 1], HostRun(policy, st, events[..|events| - 1]);
      if last.refused then before else Apply(before, Issued(policy, last))
  }

  /** An ordinary kernel on the tree the program sees, each name replaced by its alias. */
  function PlainRun(policy: Policy, view: Store, events: seq<Event>): Store
    requires policy.On?
  {
    if events == [] then view
    else
      var last, before := events[|events| - 1], PlainRun(policy, view, events[..|events| - 1]);
      if last.refused then before
      else Apply(before, Redirected(Parse(policy.to), Parse(policy.from), Intended(last)))
  }

  ghost predicate AllFit(policy: Policy, events: seq<Event>) {
    forall i | 0 <= i < |events| :: Fits(policy, events[i])
  }

  /** The store a run has reached before its event k. */
  function HostAt(policy: Policy, st: Store, events: seq<Event>, k: nat): Store
    requires k <= |events|
  {
    HostRun(policy, st, events[..k])
  }

  lemma HostAtNext(policy: Policy, st: Store, events: seq<Event>, k: nat)
    requires k < |events|
    ensures HostAt(policy, st, events, k + 1) ==
            if events[k].refused then HostAt(policy, st, events, k)
            else Apply(HostAt(policy, st, events, k), Issued(policy, events[k]))
  {
    assert events[..k + 1][..k] == events[..k];
  }

  // ---------------------------------------------------------------- isolation

  /** The step leaves the subtree at the source root alone: refused, or sparing the root in the store it meets. */
  predicate SparesAt(policy: Policy, st: Store, events: seq<Event>, i: nat)
    requires policy.On? && i < |events|
  {
    events[i].refused || Spares(Parse(policy.from), HostAt(policy, st, events, i), Issued(policy, events[i]))
  }

  function SourceAt(policy: Policy, st: Store, events: seq<Event>, k: nat): Store
    requires policy.On? && k <= |events|
  {
    Subtree(Parse(policy.from), HostAt(policy, st, events, k))
  }

  lemma StepKeepsSource(policy: Policy, st: Store, events: seq<Event>, i: nat)
    requires policy.On? && i < |events|
    ensures SourceAt(policy, st, events, i + 1) == SourceAt(policy, st, events, i) <==> SparesAt(policy, st, events, i)
  {
    HostAtNext(policy, st, events, i);
    hide Issued, Subtree, Spares, Apply;
    StepIsolatedExactly(Parse(policy.from), HostAt(policy, st, events, i), Issued(policy, events[i]));
  }

  lemma {:induction false} SourceKept(policy: Policy, st: Store, events: seq<Event>, k: nat)
    requires policy.On? && k <= |events|
    requires forall i | 0 <= i < k :: SparesAt(policy, st, events, i)
    ensures SourceAt(policy, st, events, k) == Subtree(Parse(policy.from), st)
  {
    if k > 0 {
      SourceKept(policy, st, events, k - 1);
      StepKeepsSource(policy, st, events, k - 1);
    } else {
      assert events[..0] == [];
    }
  }

  /**
    Isolation, exactly: a run of calls, of either kind, fitting or not and from any directories, keeps the
    real subtree at the source root unchanged throughout if and only if each of its steps spares
    the root in the store it meets.
   */
  lemma Isolation(policy: Policy, st: Store, events: seq<Event>)
    requires policy.On?
    ensures (forall k | 0 <= k <= |events| :: SourceAt(policy, st, events, k) == Subtree(Parse(policy.from), st)) <==>
            (forall i | 0 <= i < |events| :: SparesAt(policy, st, events, i))
  {
    hide SourceAt, SparesAt, Subtree;
    if forall i | 0 <= i < |events| :: SparesAt(policy, st, events, i) {
      forall k | 0 <= k <= |events| ensures SourceAt(policy, st, events, k) == Subtree(Parse(policy.from), st) {
        SourceKept(policy, st, events, k);
      }
    }
    if forall k | 0 <= k <= |events| :: SourceAt(policy, st, events, k) == Subtree(Parse(policy.from), st) {
      forall i | 0 <= i < |events| ensures SparesAt(policy, st, events, i) {
        StepKeepsSource(policy, st, events, i);
        assert SourceAt(policy, st, events, i) == SourceAt(policy, st, events, i + 1);
      }
    }
  }

  /**
    A step with fitting arguments spares the source root unless it is a rename, carried out, that takes a
    tree away along with an ancestor of the root or brings one there along with one.
   */
  lemma FittingSpares(policy: Policy, st: Store, events: seq<Event>, i: nat)
    requires policy.On? && Disjoint(policy) && i < |events| && Fits(policy, events[i])
    ensures var f, before, op := Parse(policy.from), HostAt(policy, st, events, i), Issued(policy, events[i]);
            SparesAt(policy, st, events, i) <==>
            (!events[i].refused && op.Rename? && CanRename(before, op.source, op.target) ==>
               && (op.source < f ==> Bare(before, f))
               && (op.target < f ==> Bare(before, op.source + f[|op.target|..])))
  {
    IssuedIsRedirected(policy, events[i]);
    RedirectedOutside(Parse(policy.from), Parse(policy.to), Intended(events[i]));
    hide Issued, Intended, Redirected, Spares, Fits, ActsOutside, CanRename, Bare, HostAt;
    SparesOutside(Parse(policy.from), HostAt(policy, st, events, i), Issued(policy, events[i]));
  }

  // ---------------------------------------------------------------- the illusion

  function PlainAt(policy: Policy, view: Store, events: seq<Event>, k: nat): Store
    requires policy.On? && k <= |events|
  {
    PlainRun(policy, view, events[..k])
  }

  /** The operation of event i on the names the program sees. */
  function Seen(policy: Policy, e: Event): Op
    requires policy.On?
  {
    Redirected(Parse(policy.to), Parse(policy.from), Intended(e))
  }

  lemma PlainAtNext(policy: Policy, view: Store, events: seq<Event>, k: nat)
    requires policy.On? && k < |events|
    ensures PlainAt(policy, view, events, k + 1) ==
            if events[k].refused then PlainAt(policy, view, events, k)
            else Apply(PlainAt(policy, view, events, k), Seen(policy, events[k]))
  {
    assert events[..k + 1][..k] == events[..k];
  }

  predicate FaithfulAt(policy: Policy, st: Store, events: seq<Event>, i: nat)
    requires policy.On? && i < |events|
  {
    events[i].refused ||
    Faithful(Parse(policy.from), Parse(policy.to), HostAt(policy, st, events, i), Seen(policy, events[i]))
  }

  /** After k events the mapped tree is the tree of the ordinary kernel. */
  predicate LooksPlain(policy: Policy, st: Store, events: seq<Event>, k: nat)
    requires policy.On? && k <= |events|
  {
    var f, t := Parse(policy.from), Parse(policy.to);
    View(f, t, HostAt(policy, st, events, k)) == PlainAt(policy, View(f, t, st), events, k)
  }

  lemma StepLooksPlain(policy: Policy, st: Store, events: seq<Event>, i: nat)
    requires policy.On? && Disjoint(policy) && i < |events| && Fits(policy, events[i])
    requires LooksPlain(policy, st, events, i)
    ensures LooksPlain(policy, st, events, i + 1) <==> FaithfulAt(policy, st, events, i)
  {
    var f, t := Parse(policy.from), Parse(policy.to);
    HostAtNext(policy, st, events, i);
    PlainAtNext(policy, View(f, t, st), events, i);
    IssuedIsRedirected(policy, events[i]);
    hide Issued, Intended, Redirected, View, Faithful, Apply, Fits, HostAt, PlainAt;
    StepCommutesExactly(f, t, HostAt(policy, st, events, i), Intended(events[i]));
  }

  lemma {:induction false} LooksPlainUpTo(policy: Policy, st: Store, events: seq<Event>, k: nat)
    requires policy.On? && Disjoint(policy) && AllFit(policy, events) && k <= |events|
    requires forall i | 0 <= i < k :: FaithfulAt(policy, st, events, i)
    ensures LooksPlain(policy, st, events, k)
  {
    if k > 0 {
      LooksPlainUpTo(policy, st, events, k - 1);
      StepLooksPlain(policy, st, events, k - 1);
    } else {
      assert events[..0] == [];
    }
  }

  /**
    The illusion, exactly: through the mapping a run of fitting calls looks at every moment like the same
    run on an ordinary kernel, whose tree has the destination's content at the source, if and only
    if each of its steps is faithful.  Both kernels share the refusals: a call refused for a reason
    outside this model, a missing parent or a permission say, is refused to both.
   */
  lemma Illusion(policy: Policy, st: Store, events: seq<Event>)
    requires policy.On? && Disjoint(policy) && AllFit(policy, events)
    ensures (forall k | 0 <= k <= |events| :: LooksPlain(policy, st, events, k)) <==>
            (forall i | 0 <= i < |events| :: FaithfulAt(policy, st, events, i))
  {
    hide LooksPlain, FaithfulAt;
    if forall i | 0 <= i < |events| :: FaithfulAt(policy, st, events, i) {
      forall k | 0 <= k <= |events| ensures LooksPlain(policy, st, events, k) {
        LooksPlainUpTo(policy, st, events, k);
      }
    }
    if forall k | 0 <= k <= |events| :: LooksPlain(policy, st, events, k) {
      forall i | 0 <= i < |events| ensures FaithfulAt(policy, st, events, i) {
        assert LooksPlain(policy, st, events, i) && LooksPlain(policy, st, events, i + 1);
        StepLooksPlain(policy, st, events, i);
      }
    }
  }

  /** What a program finds at q after a faithful run is what the ordinary kernel has at q's alias. */
  lemma LookupAfterRun(policy: Policy, st: Store, events: seq<Event>, q: Path)
    requires policy.On? && Disjoint(policy) && AllFit(policy, events)
    requires forall i | 0 <= i < |events| :: FaithfulAt(policy, st, events, i)
    ensures var f, t := Parse(policy.from), Parse(policy.to);
            Get(HostRun(policy, st, events), Mapped(policy, q)) ==
            Get(PlainRun(policy, View(f, t, st), events), Redirect(t, f, q))
  {
    LooksPlainUpTo(policy, st, events, |events|);
    assert events[..|events|] == events;
    LookupByAlias(Parse(policy.from), Parse(policy.to), HostRun(policy, st, events), q);
  }

  /**
    The alias a call acts on does not depend on which of the two directories its relative path
    starts from, the kernel's or the program's, exactly when the argument is followed.
   */
  lemma SameAliasFromEitherBase(a: Path, b: Path, virt: Path, path: string)
    requires Separate(a, b)
    ensures Redirect(b, a, Resolve(Redirect(a, b, virt), path)) == Redirect(b, a, Resolve(virt, path)) <==>
            Follows(a, b, virt, path)
  {
    FollowsExactly(a, b, virt, path);
    SamePlace(a, b, Resolve(Redirect(a, b, virt), path), Resolve(virt, path));
  }

  // ---------------------------------------------------------------- read-back

  /**
    A call, renames included, is noticed through q exactly where the mapped operation changes q's
    place, and q then finds what the operation left there.
   */
  lemma SeenExactly(policy: Policy, st: Store, e: Event, q: Path)
    requires policy.On? && Usable(policy) && Fits(policy, e)
    ensures var op, x := Redirected(Parse(policy.from), Parse(policy.to), Intended(e)), Mapped(policy, q);
            && (Get(Apply(st, Issued(policy, e)), x) != Get(st, x) <==> Changes(st, op, x))
            && (Changes(st, op, x) ==> Get(Apply(st, Issued(policy, e)), x) == Found(op, st, x))
  {
    hide Intended, Issued, Redirected, Changes, Found, Apply, Get, Fits;
    IssuedIsRedirected(policy, e);
    ChangesExactly(st, Issued(policy, e), Mapped(policy, q));
  }

  /** An operation other than a rename that changes the store changes its target and nothing else. */
  lemma ChangesTarget(st: Store, op: Op, x: Path)
    requires !op.Rename? && Apply(st, op) != st
    ensures Changes(st, op, x) <==> x == Target(op)
  {
    if !Changes(st, op, Target(op)) {
      forall p ensures Get(Apply(st, op), p) == Get(st, p) {
        ChangesExactly(st, op, p);
      }
      SameStore(Apply(st, op), st);
    }
  }

  /** An effective call other than a rename is noticed through q exactly when q and its target map to one place. */
  lemma SeenThroughAliases(policy: Policy, st: Store, e: Event, q: Path)
    requires policy.On? && Usable(policy) && Fits(policy, e) && !Intended(e).Rename?
    requires Apply(st, Issued(policy, e)) != st
    ensures Get(Apply(st, Issued(policy, e)), Mapped(policy, q)) != Get(st, Mapped(policy, q)) <==>
            Mapped(policy, Target(Intended(e))) == Mapped(policy, q)
  {
    hide Intended, Issued, Parse, Changes, Apply, Get, Fits;
    IssuedIsRedirected(policy, e);
    ChangesExactly(st, Issued(policy, e), Mapped(policy, q));
    ChangesTarget(st, Issued(policy, e), Mapped(policy, q));
  }

  /**
    A rename is noticed through q exactly when it is carried out and q's place lies at or below either
    mapped place and holds something else there than what arrives, or holds what leaves.
   */
  lemma RenameNoticed(policy: Policy, st: Store, e: Event, q: Path)
    requires policy.On? && Usable(policy) && Fits(policy, e) && e.call.RenameAt?
    ensures var old', new' := e.call.oldArg, e.call.newArg;
            var s := Mapped(policy, Named(e.sys, old'.dirfd, old'.path));
            var t := Mapped(policy, Named(e.sys, new'.dirfd, new'.path));
            var x, after := Mapped(policy, q), Apply(st, Issued(policy, e));
            && (Get(after, x) != Get(st, x) <==>
                CanRename(st, s, t) &&
                if t <= x then Get(st, s + x[|t|..]) != Get(st, x) else s <= x && x in st)
            && (CanRename(st, s, t) ==>
                  Get(after, x) == if t <= x then Get(st, s + x[|t|..]) else if s <= x then None else Get(st, x))
  {
    hide Parse, Get, Fits, Changes, Apply, Named, Redirect, CanRename;
    IssuedIsRedirected(policy, e);
    var op := Issued(policy, e);
    assert op == Rename(Mapped(policy, Named(e.sys, e.call.oldArg.dirfd, e.call.oldArg.path)),
                        Mapped(policy, Named(e.sys, e.call.newArg.dirfd, e.call.newArg.path)));
    hide Issued, Intended, Redirected, Mapped, IssuedPlace;
    ChangesExactly(st, op, Mapped(policy, q));
    RenameChanges(st, op.source, op.target, Mapped(policy, q));
  }

  /** `openat`, and `open`: a missing file is created at the mapped location of the path, and nothing else happens. */
  lemma OpenNoticed(policy: Policy, st: Store, e: Event, q: Path)
    requires policy.On? && Usable(policy) && Fits(policy, e) && e.call.OpenAt?
    ensures var arg, x := e.call.arg, Mapped(policy, q);
            var place := Mapped(policy, Named(e.sys, if arg.Arg? then arg.dirfd else AT_FDCWD, arg.path));
            Get(Apply(st, Issued(policy, e)), x) ==
            if x == place && place !in st then Some(File(e.call.ino)) else Get(st, x)
  {
    IssuedIsRedirected(policy, e);
    var arg := e.call.arg;
    var place := Mapped(policy, Named(e.sys, if arg.Arg? then arg.dirfd else AT_FDCWD, arg.path));
    hide Issued, Fits, Parse, Named, Redirect;
    assert Issued(policy, e) == Create(place, e.call.ino);
    hide Mapped;
  }

  /** `mkdirat`, and `mkdir`: the same with a directory. */
  lemma MkdirNoticed(policy: Policy, st: Store, e: Event, q: Path)
    requires policy.On? && Usable(policy) && Fits(policy, e) && e.call.MkdirAt?
    ensures var arg, x := e.call.arg, Mapped(policy, q);
            var place := Mapped(policy, Named(e.sys, if arg.Arg? then arg.dirfd else AT_FDCWD, arg.path));
            Get(Apply(st, Issued(policy, e)), x) == if x == place && place !in st then Some(Directory) else Get(st, x)
  {
    IssuedIsRedirected(policy, e);
    var arg := e.call.arg;
    var place := Mapped(policy, Named(e.sys, if arg.Arg? then arg.dirfd else AT_FDCWD, arg.path));
    hide Issued, Fits, Parse, Named, Redirect;
    assert Issued(policy, e) == MakeDir(place);
    hide Mapped;
  }

  /** `unlinkat`, `unlink` and `rmdir`: an empty directory or a file, as asked for, is gone from the mapped location. */
  lemma UnlinkNoticed(policy: Policy, st: Store, e: Event, q: Path)
    requires policy.On? && Usable(policy) && Fits(policy, e) && e.call.UnlinkAt?
    ensures var arg, x := e.call.arg, Mapped(policy, q);
            var place := Mapped(policy, Named(e.sys, if arg.Arg? then arg.dirfd else AT_FDCWD, arg.path));
            Get(Apply(st, Issued(policy, e)), x) ==
            if && x == place && place in st
               && (if e.call.directory then st[place] == Directory && !(exists below | below in st :: place < below)
                   else st[place].File?)
            then None else Get(st, x)
  {
    var arg := e.call.arg;
    var place := Mapped(policy, Named(e.sys, if arg.Arg? then arg.dirfd else AT_FDCWD, arg.path));
    IssuedIsRedirected(policy, e);
    hide Issued, Fits, Parse, Named, Redirect, Apply, Get;
    assert Issued(policy, e) == Remove(place, e.call.directory);
    hide Mapped;
    RemoveFound(st, place, e.call.directory, Mapped(policy, q));
  }

  lemma RemoveFound(st: Store, place: Path, directory: bool, x: Path)
    ensures Get(Apply(st, Remove(place, directory)), x) ==
            if && x == place && place in st
               && (if directory then st[place] == Directory && !(exists below | below in st :: place < below)
                   else st[place].File?)
            then None else Get(st, x)
  {
  }

  /**
    `linkat`: through q it is noticed exactly when q's place is the mapped new place, nothing is there, and
    the mapped old place holds a file; q then finds that file.
   */
  lemma LinkNoticed(policy: Policy, st: Store, e: Event, q: Path)
    requires policy.On? && Usable(policy) && Fits(policy, e) && e.call.LinkAt?
    ensures var old', new', x := e.call.oldArg, e.call.newArg, Mapped(policy, q);
            var s := Mapped(policy, Named(e.sys, old'.dirfd, old'.path));
            var t := Mapped(policy, Named(e.sys, new'.dirfd, new'.path));
            var linked := x == t && t !in st && s in st && st[s].File?;
            && Get(Apply(st, Issued(policy, e)), x) == (if linked then Get(st, s) else Get(st, x))
            && (Get(Apply(st, Issued(policy, e)), x) != Get(st, x) <==> linked)
  {
    var old', new' := e.call.oldArg, e.call.newArg;
    var s := Mapped(policy, Named(e.sys, old'.dirfd, old'.path));
    var t := Mapped(policy, Named(e.sys, new'.dirfd, new'.path));
    IssuedIsRedirected(policy, e);
    hide Issued, Fits, Parse, Named, Redirect, Apply, Get;
    assert Issued(policy, e) == Link(s, t);
    hide Mapped;
    LinkFound(st, s, t, Mapped(policy, q));
  }

  lemma LinkFound(st: Store, s: Path, t: Path, x: Path)
    ensures var linked := x == t && t !in st && s in st && st[s].File?;
            && Get(Apply(st, Link(s, t)), x) == (if linked then Get(st, s) else Get(st, x))
            && (Get(Apply(st, Link(s, t)), x) != Get(st, x) <==> linked)
  {
  }

  lemma RenameChanges(st: Store, s: Path, t: Path, x: Path)
    ensures Changes(st, Rename(s, t), x) <==>
            CanRename(st, s, t) && if t <= x then Get(st, s + x[|t|..]) != Get(st, x) else s <= x && x in st
    ensures CanRename(st, s, t) ==>
              Get(Apply(st, Rename(s, t)), x) ==
              if t <= x then Get(st, s + x[|t|..]) else if s <= x then None else Get(st, x)
  {
    if CanRename(st, s, t) {
      MovedGet(st, s, t, x);
    }
  }

  /** The step changes nothing at q's place: refused, or without effect there in the store it meets. */
  predicate Quiet(policy: Policy, st: Store, events: seq<Event>, i: nat, q: Path)
    requires i < |events|
  {
    events[i].refused || !Changes(HostAt(policy, st, events, i), Issued(policy, events[i]), Mapped(policy, q))
  }

  lemma QuietStep(policy: Policy, st: Store, events: seq<Event>, i: nat, q: Path)
    requires i < |events|
    ensures var before, after := HostAt(policy, st, events, i), HostAt(policy, st, events, i + 1);
            var op, x := Issued(policy, events[i]), Mapped(policy, q);
            && (Quiet(policy, st, events, i, q) <==> Get(after, x) == Get(before, x))
            && (!Quiet(policy, st, events, i, q) ==> Get(after, x) == Found(op, before, x))
  {
    hide Issued, Mapped, Apply, Get, Changes, Found;
    HostAtNext(policy, st, events, i);
    ChangesExactly(HostAt(policy, st, events, i), Issued(policy, events[i]), Mapped(policy, q));
  }

  /** What a lookup of q finds stays through quiet steps, whatever they name. */
  lemma {:induction false} ReadBack(policy: Policy, st: Store, events: seq<Event>, k: nat, n: nat, q: Path)
    requires k <= n <= |events|
    requires forall i | k <= i < n :: Quiet(policy, st, events, i, q)
    ensures Get(HostAt(policy, st, events, n), Mapped(policy, q)) ==
            Get(HostAt(policy, st, events, k), Mapped(policy, q))
  {
    hide Get, HostAt, Mapped, Quiet;
    if k < n {
      ReadBack(policy, st, events, k, n - 1, q);
      QuietStep(policy, st, events, n - 1, q);
    }
  }

  /** The last of the first n steps that is not quiet for q. */
  function LastChange(policy: Policy, st: Store, events: seq<Event>, n: nat, q: Path): (last: Option<nat>)
    requires n <= |events|
    ensures last.Some? ==> last.value < n && !Quiet(policy, st, events, last.value, q)
    ensures forall i | 0 <= i < n && (last.Some? ==> last.value < i) :: Quiet(policy, st, events, i, q)
  {
    if n == 0 then None
    else if Quiet(policy, st, events, n - 1, q) then LastChange(policy, st, events, n - 1, q)
    else Some(n - 1)
  }

  /**
    Read-back over whole runs: at the end a lookup of q finds what the last step that changed q's place
    left there, and what was there at the start if none did.
   */
  lemma FoundAtEnd(policy: Policy, st: Store, events: seq<Event>, q: Path)
    ensures var last, x := LastChange(policy, st, events, |events|, q), Mapped(policy, q);
            Get(HostRun(policy, st, events), x) ==
            if last.None? then Get(st, x)
            else Found(Issued(policy, events[last.value]), HostAt(policy, st, events, last.value), x)
  {
    hide Get, Mapped, Found, Changes, Issued, LastChange;
    var last := LastChange(policy, st, events, |events|, q);
    assert events[..|events|] == events && events[..0] == [];
    if last.Some? {
      QuietStep(policy, st, events, last.value, q);
      ReadBack(policy, st, events, last.value + 1, |events|, q);
    } else {
      ReadBack(policy, st, events, 0, |events|, q);
    }
  }

  /**
    If every call after call k is quiet for q, a lookup of q at the end differs from one before call k
    exactly when the mapped operation of call k, a rename or any other, changed q's place, and then
    finds what call k left there.
   */
  lemma LastChangeSeen(policy: Policy, st: Store, events: seq<Event>, k: nat, q: Path)
    requires policy.On? && Usable(policy) && k < |events| && Fits(policy, events[k]) && !events[k].refused
    requires forall i | k < i < |events| :: Quiet(policy, st, events, i, q)
    ensures var before, after := HostAt(policy, st, events, k), HostRun(policy, st, events);
            var op, x := Redirected(Parse(policy.from), Parse(policy.to), Intended(events[k])), Mapped(policy, q);
            && (Get(after, x) != Get(before, x) <==> Changes(before, op, x))
            && (Changes(before, op, x) ==> Get(after, x) == Found(op, before, x))
  {
    hide Issued, Intended, Redirected, Mapped, Apply, Get, Fits, Changes, Found, Quiet;
    ReadBack(policy, st, events, k + 1, |events|, q);
    assert events[..|events|] == events;
    HostAtNext(policy, st, events, k);
    SeenExactly(policy, HostAt(policy, st, events, k), events[k], q);
  }
}
