/**
  Where the promises end: for each property that does not hold of every input, an environment
  and a call, traced from the stored prefixes to the argument handed on and the place it reaches.
 */
module Limits {
  import opened CStrings
  import opened Components
  import opened CleanerLaws
  import opened Mapping
  import opened Policies
  import opened Rewriter
  import opened Locations
  import opened Walks
  import opened WorkingDirectory
  import opened FileStore
  import opened Views
  import opened FileCalls
  import opened HeldDirectories
  import opened Machines

  // ---------------------------------------------------------------- reading literals

  lemma SlashedOne(c: string, text: string)
    requires text == "/" + c
    ensures Slashed([c]) == text
  {
    assert [c][..0] == [];
  }

  lemma SlashedTwo(c: string, d: string, text: string)
    requires text == "/" + c + "/" + d
    ensures Slashed([c, d]) == text
  {
    SlashedOne(c, "/" + c);
    SlashedSnoc([c], d);
  }

  /** Roots with different first names are separate. */
  lemma SeparateHeads(f: Path, t: Path)
    requires f != [] && t != [] && f[0] != [] && t[0] != [] && f[0][0] != t[0][0]
    ensures Separate(f, t) && !(f <= t) && !(t <= f)
  {
  }

  /** A short path of names is read and stored as it is. */
  lemma ReadPlain(p: Path)
    requires IsPath(p) && p != [] && |Slashed(p)| < PATH_MAX
    ensures var s := Slashed(p);
            IsAbsolute(s) && Parse(s) == ComponentsOf(s) == p && Clean(s) == s && CleanFits(s, PATH_MAX)
    ensures Cleaned(Slashed(p)) && Canonical(Slashed(p))
  {
    PathSegments(p);
    ParseSlashed(p);
    CleanRender(p);
    RenderIsCleaned(p);
    ShortSourceFits(Slashed(p), PATH_MAX);
  }

  /** A path that ends by leaving a name again is stored with a trailing separator. */
  lemma ReadPopped(p: Path, c: string)
    requires IsPath(p) && p != [] && IsName(c)
    requires var s := Slashed(p) + "/" + c + "/.."; |s| < PATH_MAX
    ensures var s := Slashed(p) + "/" + c + "/..";
            IsAbsolute(s) && CleanFits(s, PATH_MAX) && Clean(s) == Slashed(p) + "/"
    ensures Parse(Slashed(p) + "/") == p
  {
    var s, inner := Slashed(p) + "/" + c + "/..", p + [c];
    SlashedSnoc(p, c);
    SlashedSnoc(inner, "..");
    assert AreSegments(inner + [".."]);
    hide Slashed;
    assert s == Slashed(inner + [".."]);
    SlashedStart(inner + [".."]);
    ParseSlashed(inner + [".."]);
    PathSegments(p);
    ParseSlashed(p);
    ParseTrailingSlash(Slashed(p));
    hide Parse;
    ShortSourceFits(s, PATH_MAX);
    hide CleanFits;
    PoppedRun(p, c);
  }

  lemma PoppedRun(p: Path, c: string)
    requires IsPath(p) && p != [] && IsName(c)
    ensures Run(true, [], p + [c] + [".."]) == p && EndsInPop(true, p + [c] + [".."])
  {
    var inner := p + [c];
    RunNames(true, [], inner);
    assert [] + inner == inner && inner[..|p|] == p;
    RunSnoc(true, [], inner, "..");
    assert (inner + [".."])[..|inner|] == inner;
  }

  /** The policy two plain paths configure. */
  lemma Configured(f: Path, t: Path)
    requires IsPath(f) && f != [] && |Slashed(f)| < PATH_MAX
    requires IsPath(t) && t != [] && |Slashed(t)| < PATH_MAX
    ensures var policy := PolicyFrom(Some(Slashed(f)), Some(Slashed(t)));
            && policy == On(Slashed(f), Slashed(t)) && Usable(policy) && Canonical(policy.to)
            && Parse(policy.from) == f && Parse(policy.to) == t
  {
    ReadPlain(f);
    ReadPlain(t);
  }

  /** A path argument outside the source is handed on as it is, and leads where it says. */
  lemma HandedOn(policy: Policy, cwd: Path, p: Path)
    requires policy.On? && Usable(policy) && IsPath(cwd) && IsPath(p) && p != [] && |Slashed(p)| < PATH_MAX
    requires !(Parse(policy.from) <= p)
    ensures AtArgument(policy, Answers(At(cwd)), AT_FDCWD, Slashed(p), PATH_MAX) == (AT_FDCWD, Slashed(p))
    ensures Named(At(cwd), AT_FDCWD, Slashed(p)) == p
  {
    ReadPlain(p);
    ReplacedExactly(policy, At(cwd), AT_FDCWD, Slashed(p), PATH_MAX);
  }

  // ---------------------------------------------------------------- above the roots

  /** FROM=/x/y, TO=/z: renaming /x takes the real subtree at /x/y along. */
  lemma RenamingAboveSource()
    ensures var policy := PolicyFrom(Some("/x/y"), Some("/z"));
            var e := Event(At([]), RenameAt(Arg(AT_FDCWD, "/x"), Arg(AT_FDCWD, "/w")), false);
            var st: Store := map[["x"] := Directory, ["x", "y"] := Directory];
            && policy == On("/x/y", "/z")
            && AtArgument(policy, Answers(At([])), AT_FDCWD, "/x", PATH_MAX) == (AT_FDCWD, "/x")
            && AtArgument(policy, Answers(At([])), AT_FDCWD, "/w", PATH_MAX) == (AT_FDCWD, "/w")
            && Get(st, ["x", "y"]) == Some(Directory)
            && Get(Apply(st, Issued(policy, e)), ["x", "y"]) == None
  {
    SlashedTwo("x", "y", "/x/y");
    SlashedOne("z", "/z");
    SlashedOne("x", "/x");
    SlashedOne("w", "/w");
    assert "x" != "w";
    hide *;
    RenameAbove("x", "y", "z", "w");
  }

  lemma RenameAbove(x: string, y: string, z: string, w: string)
    requires IsName(x) && IsName(y) && IsName(z) && IsName(w) && x != w
    requires |Slashed([x, y])| < PATH_MAX && |Slashed([z])| < PATH_MAX
    requires |Slashed([x])| < PATH_MAX && |Slashed([w])| < PATH_MAX
    ensures var policy := PolicyFrom(Some(Slashed([x, y])), Some(Slashed([z])));
            var e := Event(At([]), RenameAt(Arg(AT_FDCWD, Slashed([x])), Arg(AT_FDCWD, Slashed([w]))), false);
            var st: Store := map[[x] := Directory, [x, y] := Directory];
            && policy == On(Slashed([x, y]), Slashed([z]))
            && AtArgument(policy, Answers(At([])), AT_FDCWD, Slashed([x]), PATH_MAX) == (AT_FDCWD, Slashed([x]))
            && AtArgument(policy, Answers(At([])), AT_FDCWD, Slashed([w]), PATH_MAX) == (AT_FDCWD, Slashed([w]))
            && Get(st, [x, y]) == Some(Directory)
            && Get(Apply(st, Issued(policy, e)), [x, y]) == None
  {
    var policy := PolicyFrom(Some(Slashed([x, y])), Some(Slashed([z])));
    Configured([x, y], [z]);
    hide *;
    PathsAbove(x, y, w);
    HandedOn(policy, [], [x]);
    HandedOn(policy, [], [w]);
    RenameIssued(policy, [], [x], [w]);
    TakenAlong(x, y, w);
  }

  lemma PathsAbove(x: string, y: string, w: string)
    requires IsName(x) && IsName(w)
    ensures IsPath([]) && IsPath([x]) && IsPath([w]) && !([x, y] <= [x]) && !([x, y] <= [w])
  {
  }

  lemma RenameIssued(policy: Policy, cwd: Path, p: Path, q: Path)
    requires AtArgument(policy, Answers(At(cwd)), AT_FDCWD, Slashed(p), PATH_MAX) == (AT_FDCWD, Slashed(p))
    requires AtArgument(policy, Answers(At(cwd)), AT_FDCWD, Slashed(q), PATH_MAX) == (AT_FDCWD, Slashed(q))
    requires Named(At(cwd), AT_FDCWD, Slashed(p)) == p && Named(At(cwd), AT_FDCWD, Slashed(q)) == q
    ensures Issued(policy, Event(At(cwd), RenameAt(Arg(AT_FDCWD, Slashed(p)), Arg(AT_FDCWD, Slashed(q))), false)) ==
            Rename(p, q)
  {
    hide Slashed, AtArgument, Named, Answers, At;
  }

  lemma TakenAlong(x: string, y: string, w: string)
    requires x != w
    ensures var st: Store := map[[x] := Directory, [x, y] := Directory];
            Get(st, [x, y]) == Some(Directory) && Get(Apply(st, Rename([x], [w])), [x, y]) == None
  {
    var st: Store := map[[x] := Directory, [x, y] := Directory];
    assert [x][0] == x && [w][0] == w && [x, y][0] == x;
    assert CanRename(st, [x], [w]);
    hide CanRename, Moved;
    MovedGet(st, [x], [w], [x, y]);
  }

  /**
    FROM=/x/y, TO=/z: the program sees /x/y, and so a directory /x that is not empty; the kernel
    holds nothing below /x and removes it.
   */
  lemma RemovingAboveSource()
    ensures var policy := PolicyFrom(Some("/x/y"), Some("/z"));
            var e := Event(At([]), UnlinkAt(Arg(AT_FDCWD, "/x"), true), false);
            var st: Store := map[["x"] := Directory, ["z"] := Directory];
            var view := View(["x", "y"], ["z"], st);
            && policy == On("/x/y", "/z")
            && AtArgument(policy, Answers(At([])), AT_FDCWD, "/x", PATH_MAX) == (AT_FDCWD, "/x")
            && Get(view, ["x"]) == Some(Directory) && Get(view, ["x", "y"]) == Some(Directory)
            && Get(Apply(st, Issued(policy, e)), ["x"]) == None
            && Get(Apply(view, Seen(policy, e)), ["x"]) == Some(Directory)
  {
    SlashedTwo("x", "y", "/x/y");
    SlashedOne("z", "/z");
    SlashedOne("x", "/x");
    assert "x" != "z";
    hide *;
    RemoveAbove("x", "y", "z");
  }

  lemma RemoveAbove(x: string, y: string, z: string)
    requires IsName(x) && IsName(y) && IsName(z) && x != z
    requires |Slashed([x, y])| < PATH_MAX && |Slashed([z])| < PATH_MAX && |Slashed([x])| < PATH_MAX
    ensures var policy := PolicyFrom(Some(Slashed([x, y])), Some(Slashed([z])));
            var e := Event(At([]), UnlinkAt(Arg(AT_FDCWD, Slashed([x])), true), false);
            var st: Store := map[[x] := Directory, [z] := Directory];
            var view := View([x, y], [z], st);
            && policy == On(Slashed([x, y]), Slashed([z]))
            && AtArgument(policy, Answers(At([])), AT_FDCWD, Slashed([x]), PATH_MAX) == (AT_FDCWD, Slashed([x]))
            && Get(view, [x]) == Some(Directory) && Get(view, [x, y]) == Some(Directory)
            && Get(Apply(st, Issued(policy, e)), [x]) == None
            && Get(Apply(view, Seen(policy, e)), [x]) == Some(Directory)
  {
    var policy := PolicyFrom(Some(Slashed([x, y])), Some(Slashed([z])));
    var e := Event(At([]), UnlinkAt(Arg(AT_FDCWD, Slashed([x])), true), false);
    Configured([x, y], [z]);
    assert IsPath([]) && IsPath([x]) && !([x, y] <= [x]);
    hide *;
    HandedOn(policy, [], [x]);
    EmptyOnlyToKernel(x, y, z);
    RemovalIssued(policy, [], [x]);
    RemovedFromKernel(map[[x] := Directory, [z] := Directory], [x]);
    RemovalRefused(View([x, y], [z], map[[x] := Directory, [z] := Directory]), [x]);
  }

  lemma RemovalIssued(policy: Policy, cwd: Path, p: Path)
    requires policy.On? && Redirect(Parse(policy.to), Parse(policy.from), p) == p
    requires AtArgument(policy, Answers(At(cwd)), AT_FDCWD, Slashed(p), PATH_MAX) == (AT_FDCWD, Slashed(p))
    requires Named(At(cwd), AT_FDCWD, Slashed(p)) == p
    ensures var e := Event(At(cwd), UnlinkAt(Arg(AT_FDCWD, Slashed(p)), true), false);
            Issued(policy, e) == Remove(p, true) && Seen(policy, e) == Remove(p, true)
  {
    hide Slashed, AtArgument, Named, Answers, At, Parse, Redirect;
  }

  lemma RemovedFromKernel(st: Store, p: Path)
    requires Get(st, p) == Some(Directory) && !HasBelow(st, p)
    ensures Get(Apply(st, Remove(p, true)), p) == None
  {
  }

  lemma RemovalRefused(st: Store, p: Path)
    requires HasBelow(st, p)
    ensures Get(Apply(st, Remove(p, true)), p) == Get(st, p)
  {
  }

  lemma EmptyOnlyToKernel(x: string, y: string, z: string)
    requires x != z
    ensures var st: Store := map[[x] := Directory, [z] := Directory];
            var view := View([x, y], [z], st);
            && Get(view, [x]) == Some(Directory) && Get(view, [x, y]) == Some(Directory)
            && Get(st, [x]) == Some(Directory) && !HasBelow(st, [x]) && HasBelow(view, [x])
            && Redirect([z], [x, y], [x]) == [x]
  {
    var st: Store := map[[x] := Directory, [z] := Directory];
    assert [x, y][0] == x && [z][0] == z && [x][0] == x;
    ViewGet([x, y], [z], st, [x]);
    ViewGet([x, y], [z], st, [x, y]);
    assert Redirect([x, y], [z], [x, y]) == [z];
    assert [x, y] in View([x, y], [z], st);
  }

  /**
    FROM=/x/y, TO=/z: the program is in /x/y, whose directory /z was removed.  Renaming /x takes the program's
    directory to /w/y and leaves the kernel's where it was.
   */
  lemma LosingHeldDirectory()
    ensures var policy := PolicyFrom(Some("/x/y"), Some("/z"));
            var st: Store := map[["x"] := Directory];
            var host, plain := Machine(st, At(["z"])), Machine(View(["x", "y"], ["z"], st), At(["x", "y"]));
            var call := OnFiles(RenameAt(Arg(AT_FDCWD, "/x"), Arg(AT_FDCWD, "/w")), false);
            && policy == On("/x/y", "/z")
            && HostCall(policy, host.sys, call) == PlainCall(policy, plain.sys, call) ==
                 Change(Rename(["x"], ["w"]), false)
            && Mirrors(["x", "y"], ["z"], host, plain) && Faithful(["x", "y"], ["z"], st, Rename(["x"], ["w"]))
            && !HeldAlike(["x", "y"], ["z"], ["x"], ["w"], ["x", "y"])
            && !Mirrors(["x", "y"], ["z"], KernelStep(host, HostCall(policy, host.sys, call)),
                        KernelStep(plain, PlainCall(policy, plain.sys, call)))
  {
    SlashedTwo("x", "y", "/x/y");
    SlashedOne("z", "/z");
    SlashedOne("x", "/x");
    SlashedOne("w", "/w");
    assert "x" != "w" && "x" != "z" && "w" != "z";
    hide *;
    NamesApart("x", "y", "z", "w");
    LoseHeldCall("x", "y", "z", "w");
    LoseHeldMirror("x", "y", "z", "w");
  }

  lemma LoseHeldCall(x: string, y: string, z: string, w: string)
    requires IsName(x) && IsName(y) && IsName(z) && IsName(w) && x != w && x != z && w != z
    requires |Slashed([x, y])| < PATH_MAX && |Slashed([z])| < PATH_MAX
    requires |Slashed([x])| < PATH_MAX && |Slashed([w])| < PATH_MAX
    ensures var policy := PolicyFrom(Some(Slashed([x, y])), Some(Slashed([z])));
            var call := OnFiles(RenameAt(Arg(AT_FDCWD, Slashed([x])), Arg(AT_FDCWD, Slashed([w]))), false);
            && policy == On(Slashed([x, y]), Slashed([z]))
            && HostCall(policy, At([z]), call) == Change(Rename([x], [w]), false)
            && PlainCall(policy, At([x, y]), call) == Change(Rename([x], [w]), false)
  {
    var policy := PolicyFrom(Some(Slashed([x, y])), Some(Slashed([z])));
    Configured([x, y], [z]);
    NamesApart(x, y, z, w);
    hide *;
    HandedOn(policy, [z], [x]);
    HandedOn(policy, [z], [w]);
    HandedOn(policy, [x, y], [x]);
    HandedOn(policy, [x, y], [w]);
    RenameIssued(policy, [z], [x], [w]);
    RenameSeenAs(policy, [x, y], [x], [w]);
    CallsResolved(policy, [z], [x, y], [x], [w]);
  }

  lemma LoseHeldMirror(x: string, y: string, z: string, w: string)
    requires IsName(x) && IsName(y) && IsName(z) && IsName(w) && x != w && x != z && w != z
    ensures var st: Store := map[[x] := Directory];
            var host, plain := Machine(st, At([z])), Machine(View([x, y], [z], st), At([x, y]));
            var change := Change(Rename([x], [w]), false);
            && Mirrors([x, y], [z], host, plain) && Faithful([x, y], [z], st, Rename([x], [w]))
            && !Mirrors([x, y], [z], KernelStep(host, change), KernelStep(plain, change))
  {
    var st: Store := map[[x] := Directory];
    NamesApart(x, y, z, w);
    hide *;
    LostMirrors(x, y, z);
    LostFaithful(x, y, z, w);
    assert At([x, y]).cwd == [x, y] by { AtCwd([x, y]); }
    LostAfter([x, y], [z], Machine(st, At([z])), Machine(View([x, y], [z], st), At([x, y])), [x], [w]);
  }

  lemma AtCwd(p: Path)
    ensures At(p).cwd == p
  {
  }

  lemma NamesApart(x: string, y: string, z: string, w: string)
    requires IsName(x) && IsName(y) && IsName(z) && IsName(w) && x != w && x != z && w != z
    ensures IsPath([x, y]) && IsPath([z]) && IsPath([x]) && IsPath([w]) && Separate([x, y], [z])
    ensures !([x, y] <= [x]) && !([x, y] <= [w])
    ensures Redirect([z], [x, y], [x]) == [x] && Redirect([z], [x, y], [w]) == [w]
    ensures Redirect([x, y], [z], [x]) == [x] && Redirect([x, y], [z], [w]) == [w]
    ensures !HeldAlike([x, y], [z], [x], [w], [x, y])
  {
    assert [x, y][0] == x && [z][0] == z && [x][0] == x && [w][0] == w;
  }

  lemma RenameSeenAs(policy: Policy, cwd: Path, p: Path, q: Path)
    requires policy.On?
    requires Named(At(cwd), AT_FDCWD, Slashed(p)) == p && Named(At(cwd), AT_FDCWD, Slashed(q)) == q
    requires Redirect(Parse(policy.to), Parse(policy.from), p) == p
    requires Redirect(Parse(policy.to), Parse(policy.from), q) == q
    ensures Seen(policy, Event(At(cwd), RenameAt(Arg(AT_FDCWD, Slashed(p)), Arg(AT_FDCWD, Slashed(q))), false)) ==
            Rename(p, q)
  {
    hide Slashed, Named, At, Parse, Redirect;
  }

  lemma CallsResolved(policy: Policy, host: Path, plain: Path, p: Path, q: Path)
    requires policy.On?
    requires var rename := RenameAt(Arg(AT_FDCWD, Slashed(p)), Arg(AT_FDCWD, Slashed(q)));
             && Issued(policy, Event(At(host), rename, false)) == Rename(p, q)
             && Seen(policy, Event(At(plain), rename, false)) == Rename(p, q)
    ensures var call := OnFiles(RenameAt(Arg(AT_FDCWD, Slashed(p)), Arg(AT_FDCWD, Slashed(q))), false);
            && HostCall(policy, At(host), call) == Change(Rename(p, q), false)
            && PlainCall(policy, At(plain), call) == Change(Rename(p, q), false)
  {
    hide Slashed, Issued, Seen, At;
  }

  lemma LostMirrors(x: string, y: string, z: string)
    requires IsPath([z]) && Separate([x, y], [z])
    ensures var st: Store := map[[x] := Directory];
            Mirrors([x, y], [z], Machine(st, At([z])), Machine(View([x, y], [z], st), At([x, y])))
  {
    assert Redirect([x, y], [z], [x, y]) == [z];
    UnderOne([x, y], [z], [x, y]);
    hide View, Redirect, IsPath, Separate;
  }

  lemma LostFaithful(x: string, y: string, z: string, w: string)
    requires Separate([x, y], [z]) && IsName(w) && x != w && x != z && w != z
    ensures Faithful([x, y], [z], map[[x] := Directory], Rename([x], [w]))
    ensures CanRename(map[[x] := Directory], [x], [w])
  {
    var st: Store := map[[x] := Directory];
    var f, t, s, d: Path := [x, y], [z], [x], [w];
    assert f[0] == x && t[0] == z && s[0] == x && d[0] == w;
    assert Redirect(f, t, s) == s && Redirect(f, t, d) == d;
    assert CanRename(st, s, d) && Bare(st, f) && Bare(st, t);
    assert !SeesBelow(f, t, st, d) by {
      assert !HasBelow(st, d);
    }
    SeenRename(f, t, st, s, d);
    hide CanRename, View, Redirect, SeesBelow;
  }

  lemma LostAfter(a: Path, b: Path, host: Machine, plain: Machine, x: Path, y: Path)
    requires Separate(a, b) && Mirrors(a, b, host, plain) && Faithful(a, b, host.store, Rename(x, y))
    requires Redirect(b, a, x) == x && Redirect(b, a, y) == y && Redirect(a, b, x) == x && Redirect(a, b, y) == y
    requires IsPath(y) && !HeldAlike(a, b, x, y, plain.sys.cwd) && CanRename(host.store, x, y)
    ensures var change := Change(Rename(x, y), false);
            !Mirrors(a, b, KernelStep(host, change), KernelStep(plain, change))
  {
    hide KernelStep, Mirrors, HeldAlike, CanRename, View, Redirect;
    ChangeMirrorsExactly(a, b, host, plain, Rename(x, y));
  }

  // ---------------------------------------------------------------- stored with a trailing separator

  /** FROM=/a/b/.., TO=/t: stored as /a/, which no path below it matches; /a/c is not rewritten. */
  lemma SourceWithTrailingSeparator(cwd: Path)
    requires IsPath(cwd)
    ensures var policy := PolicyFrom(Some("/a/b/.."), Some("/t"));
            && policy == On("/a/", "/t")
            && AtArgument(policy, Answers(At(cwd)), AT_FDCWD, "/a/c", PATH_MAX) == (AT_FDCWD, "/a/c")
            && Named(At(cwd), AT_FDCWD, "/a/c") == ["a", "c"] && Mapped(policy, ["a", "c"]) == ["t", "c"]
  {
    SlashedOne("a", "/a");
    SlashedOne("t", "/t");
    SlashedTwo("a", "c", "/a/c");
    assert "/a" + "/" + "b" + "/.." == "/a/b/.." && "/a" + "/" == "/a/";
    hide *;
    PoppedSource(cwd, "a", "b", "c", "t");
  }

  lemma PoppedSource(cwd: Path, a: string, b: string, c: string, t: string)
    requires IsPath(cwd) && IsName(a) && IsName(b) && IsName(c) && IsName(t)
    requires |Slashed([a]) + "/" + b + "/.."| < PATH_MAX && |Slashed([a, c])| < PATH_MAX && |Slashed([t])| < PATH_MAX
    ensures var policy := PolicyFrom(Some(Slashed([a]) + "/" + b + "/.."), Some(Slashed([t])));
            && policy == On(Slashed([a]) + "/", Slashed([t]))
            && AtArgument(policy, Answers(At(cwd)), AT_FDCWD, Slashed([a, c]), PATH_MAX) == (AT_FDCWD, Slashed([a, c]))
            && Named(At(cwd), AT_FDCWD, Slashed([a, c])) == [a, c] && Mapped(policy, [a, c]) == [t, c]
  {
    assert IsPath([a]) && IsPath([t]) && IsPath([a, c]) && IsSegment(c) && [a] + [c] == [a, c];
    assert Redirect([a], [t], [a, c]) == [t, c];
    hide *;
    var policy := PolicyFrom(Some(Slashed([a]) + "/" + b + "/.."), Some(Slashed([t])));
    ReadPopped([a], b);
    ReadPlain([t]);
    ReadPlain([a, c]);
    SlashedSnoc([a], c);
    NotMatched(Slashed([a]) + "/", Slashed([a, c]), c);
    StoredAs(Slashed([a]) + "/" + b + "/..", Slashed([t]));
    PassedOn(policy, cwd, Slashed([a, c]));
    MappedByRoots(policy, [a, c]);
  }

  lemma StoredAs(from: string, to: string)
    requires IsAbsolute(from) && IsAbsolute(to) && CleanFits(from, PATH_MAX) && CleanFits(to, PATH_MAX)
    ensures PolicyFrom(Some(from), Some(to)) == On(Clean(from), Clean(to))
  {
  }

  lemma PassedOn(policy: Policy, cwd: Path, s: string)
    requires policy.On? && IsAbsolute(s) && Clean(s) == s && !Matches(s, policy.from)
    ensures AtArgument(policy, Answers(At(cwd)), AT_FDCWD, s, PATH_MAX) == (AT_FDCWD, s)
    ensures Named(At(cwd), AT_FDCWD, s) == ComponentsOf(s)
  {
    hide Matches, Clean, Parse;
  }

  lemma NotMatched(prefix: string, path: string, c: string)
    requires path == prefix + c && IsSegment(c)
    ensures !Matches(path, prefix)
  {
    assert path[|prefix|] == c[0];
  }

  /** FROM=/a, TO=/t/u/..: stored as /t/; `getcwd` shows the kernel's /t/c and not the program's /a/c. */
  lemma DestinationWithTrailingSeparator()
    ensures var policy := PolicyFrom(Some("/a"), Some("/t/u/.."));
            && policy == On("/a", "/t/")
            && Mapped(policy, ["a", "c"]) == ["t", "c"] && Render(true, ["a", "c"]) == "/a/c"
            && Getcwd(policy, ["t", "c"], PATH_MAX) == Some("/t/c")
  {
    SlashedOne("a", "/a");
    SlashedOne("t", "/t");
    SlashedTwo("t", "c", "/t/c");
    SlashedTwo("a", "c", "/a/c");
    assert "/t" + "/" + "u" + "/.." == "/t/u/.." && "/t" + "/" == "/t/";
    hide *;
    PoppedDestination("a", "t", "u", "c");
  }

  lemma PoppedDestination(a: string, t: string, u: string, c: string)
    requires IsName(a) && IsName(t) && IsName(u) && IsName(c) && |Slashed([a])| < PATH_MAX
    requires |Slashed([t]) + "/" + u + "/.."| < PATH_MAX && |Slashed([t, c])| < PATH_MAX
    ensures var policy := PolicyFrom(Some(Slashed([a])), Some(Slashed([t]) + "/" + u + "/.."));
            && policy == On(Slashed([a]), Slashed([t]) + "/")
            && Mapped(policy, [a, c]) == [t, c] && Render(true, [a, c]) == Slashed([a, c])
            && Getcwd(policy, [t, c], PATH_MAX) == Some(Slashed([t, c]))
  {
    ReadPlain([a]);
    ReadPopped([t], u);
    SlashedSnoc([t], c);
    assert [t] + [c] == [t, c];
    hide Clean, CleanFits, Parse, ComponentsOf, Slashed;
    NotMatched(Slashed([t]) + "/", Slashed([t, c]), c);
    assert Redirect([a], [t], [a, c]) == [t, c];
  }

  /** FROM=/a/b/.., TO=/t: in /t, `getcwd` answers /a/, and `chdir` of that leaves for the real /a. */
  lemma ReturningToCwdMoves()
    ensures var policy := PolicyFrom(Some("/a/b/.."), Some("/t"));
            && policy == On("/a/", "/t")
            && Getcwd(policy, ["t"], PATH_MAX) == Some("/a/")
            && RealNext(policy, ["t"], Chdir("/a/", {["a"]})) == ["a"]
  {
    SlashedOne("a", "/a");
    SlashedOne("t", "/t");
    assert "/a" + "/" + "b" + "/.." == "/a/b/.." && "/a" + "/" == "/a/" && "a" != "t";
    hide *;
    PoppedSourceMoves("a", "b", "t");
  }

  lemma PoppedSourceMoves(a: string, b: string, t: string)
    requires IsName(a) && IsName(b) && IsName(t) && a != t
    requires |Slashed([a]) + "/" + b + "/.."| < PATH_MAX && |Slashed([t])| < PATH_MAX
    ensures var policy := PolicyFrom(Some(Slashed([a]) + "/" + b + "/.."), Some(Slashed([t])));
            && policy == On(Slashed([a]) + "/", Slashed([t]))
            && Getcwd(policy, [t], PATH_MAX) == Some(Slashed([a]) + "/")
            && RealNext(policy, [t], Chdir(Slashed([a]) + "/", {[a]})) == [a]
  {
    var policy := PolicyFrom(Some(Slashed([a]) + "/" + b + "/.."), Some(Slashed([t])));
    ReadPopped([a], b);
    ReadPlain([t]);
    PolicyFromIsStored(Some(Slashed([a]) + "/" + b + "/.."), Some(Slashed([t])));
    hide Clean, CleanFits, Getcwd, RealNext, ComponentsOf;
    CanonicalMeans(policy.from);
    hide Parse, Slashed, PolicyFrom, Canonical;
    assert [a][0] == a && [t][0] == t;
    ChdirGetcwdMoves(policy);
  }

  // ---------------------------------------------------------------- relative paths

  lemma MappedByRoots(policy: Policy, p: Path)
    requires policy.On?
    ensures Mapped(policy, p) == Redirect(Parse(policy.from), Parse(policy.to), p)
  {
  }

  lemma DisjointRoots(policy: Policy)
    requires policy.On? && Usable(policy) && Separate(Parse(policy.from), Parse(policy.to))
    ensures Disjoint(policy)
  {
  }

  /** A dot-dot, handed on as it is, takes the kernel above the destination and means the place above the source. */
  lemma DotDotFromRoots(policy: Policy, f: Path, t: Path)
    requires policy.On? && Disjoint(policy) && f == Parse(policy.from) && t == Parse(policy.to) && IsPath(t)
    ensures PathArgument(policy, "..", PATH_MAX) == ".."
    ensures AtArgument(policy, Answers(At(t)), AT_FDCWD, "..", PATH_MAX) == (AT_FDCWD, "..")
    ensures Resolve(t, "..") == t[..|t| - 1] && Redirect(f, t, Resolve(f, "..")) == f[..|f| - 1]
    ensures Redirect(f, t, f) == t
  {
    DotDot(f);
    DotDot(t);
    assert t + f[|f|..] == t;
    hide Parse, Resolve;
    ReplacedExactly(policy, At(t), AT_FDCWD, "..", PATH_MAX);
  }

  lemma DotDot(p: Path)
    requires p != []
    ensures Resolve(p, "..") == p[..|p| - 1]
  {
    ParseSegment("..");
    RunSnoc(true, p, [], "..");
    assert [] + [".."] == [".."];
  }

  /**
    FROM=/x/f, TO=/y/t: the program is in /x/f, the kernel in /y/t.  `open("..")` is handed on as it is and
    leads to /y, outside FROM but not to the program's /x; so does `chdir("..")`.
   */
  lemma ClimbingOut()
    ensures var policy := PolicyFrom(Some("/x/f"), Some("/y/t"));
            && policy == On("/x/f", "/y/t") && Mapped(policy, ["x", "f"]) == ["y", "t"]
            && PathArgument(policy, "..", PATH_MAX) == ".."
            && AtArgument(policy, Answers(At(["y", "t"])), AT_FDCWD, "..", PATH_MAX) == (AT_FDCWD, "..")
            && Resolve(["y", "t"], "..") == ["y"] && Mapped(policy, Resolve(["x", "f"], "..")) == ["x"]
  {
    SlashedTwo("x", "f", "/x/f");
    SlashedTwo("y", "t", "/y/t");
    SeparateHeads(["x", "f"], ["y", "t"]);
    assert IsPath(["x", "f"]) && IsPath(["y", "t"]) && ["x", "f"][..1] == ["x"] && ["y", "t"][..1] == ["y"];
    var policy := PolicyFrom(Some("/x/f"), Some("/y/t"));
    hide *;
    Configured(["x", "f"], ["y", "t"]);
    DisjointRoots(policy);
    DotDotFromRoots(policy, ["x", "f"], ["y", "t"]);
    MappedByRoots(policy, ["x", "f"]);
    MappedByRoots(policy, Resolve(["x", "f"], ".."));
  }

  /**
    FROM=/a, TO=/t: with the program in /a and the kernel in /t, `open("../a")` reaches the real /a, and
    `rmdir("../a")` removes it.
   */
  lemma ReenteringSource()
    ensures var policy := PolicyFrom(Some("/a"), Some("/t"));
            && policy == On("/a", "/t") && Mapped(policy, ["a"]) == ["t"]
            && PathArgument(policy, "../a", PATH_MAX) == "../a"
            && Resolve(["t"], "../a") == ["a"] && Mapped(policy, Resolve(["a"], "../a")) == ["t"]
            && Follows(["a"], ["t"], ["a"], "../a")
            && Issued(policy, Event(At(["t"]), UnlinkAt(AbsoluteOnly("../a"), true), false)) == Remove(["a"], true)
            && Apply(map[["a"] := Directory], Remove(["a"], true)) == map[]
  {
    SlashedOne("a", "/a");
    SlashedOne("t", "/t");
    assert "../" + "a" == "../a" && "a" != "t";
    hide *;
    Reenter("a", "t");
  }

  lemma Reenter(a: string, t: string)
    requires IsName(a) && IsName(t) && a != t && |Slashed([a])| < PATH_MAX && |Slashed([t])| < PATH_MAX
    ensures var policy := PolicyFrom(Some(Slashed([a])), Some(Slashed([t])));
            && policy == On(Slashed([a]), Slashed([t])) && Mapped(policy, [a]) == [t]
            && PathArgument(policy, "../" + a, PATH_MAX) == "../" + a
            && Resolve([t], "../" + a) == [a] && Mapped(policy, Resolve([a], "../" + a)) == [t]
            && Follows([a], [t], [a], "../" + a)
            && Issued(policy, Event(At([t]), UnlinkAt(AbsoluteOnly("../" + a), true), false)) == Remove([a], true)
            && Apply(map[[a] := Directory], Remove([a], true)) == map[]
  {
    var policy := PolicyFrom(Some(Slashed([a])), Some(Slashed([t])));
    Configured([a], [t]);
    UpAndDown([a], a);
    UpAndDown([t], a);
    hide Parse, Resolve, Slashed, PolicyFrom, Issued, Apply, Follows;
    assert Redirect([a], [t], [a]) == [t] && [a][0] == a && [t][0] == t;
    assert !IsAbsolute("../" + a);
    FollowsExactly([a], [t], [a], "../" + a);
    RemovalThrough(policy, [t], "../" + a, [a]);
  }

  /** `rmdir` of a path handed on as it is removes the directory it leads to. */
  lemma RemovalThrough(policy: Policy, cwd: Path, path: string, p: Path)
    requires PathArgument(policy, path, PATH_MAX) == path && Resolve(cwd, path) == p
    ensures Issued(policy, Event(At(cwd), UnlinkAt(AbsoluteOnly(path), true), false)) == Remove(p, true)
    ensures Apply(map[p := Directory], Remove(p, true)) == map[]
  {
    hide PathArgument, Resolve;
  }

  lemma UpAndDown(p: Path, c: string)
    requires p != [] && IsName(c)
    ensures Resolve(p, "../" + c) == p[..|p| - 1] + [c]
  {
    DotDot(p);
    ParseSegment("..");
    ParseSegment(c);
    ParseJoined("..", c);
    assert ".." + "/" + c == "../" + c;
    RunSnoc(true, p, [".."], c);
    assert [".."] + [c] == ["..", c];
  }

  /**
    FROM=/original/prefix, TO=/replacement/prefix: ".." is not followed from FROM, "../prefix" is, though it
    leaves both roots on its way.
   */
  lemma LeavingAndReturning()
    ensures var policy := PolicyFrom(Some("/original/prefix"), Some("/replacement/prefix"));
            var f, t := ["original", "prefix"], ["replacement", "prefix"];
            && policy == On("/original/prefix", "/replacement/prefix") && !Siblings(f, t)
            && !Follows(f, t, f, "..") && Follows(f, t, f, "../prefix")
            && Resolve(t, "../prefix") == t && Mapped(policy, Resolve(f, "../prefix")) == t
  {
    SlashedTwo("original", "prefix", "/original/prefix");
    SlashedTwo("replacement", "prefix", "/replacement/prefix");
    assert "original"[0] != "replacement"[0] && "../" + "prefix" == "../prefix";
    hide *;
    LeaveAndReturn("original", "replacement", "prefix");
  }

  lemma LeaveAndReturn(o: string, r: string, c: string)
    requires IsName(o) && IsName(r) && IsName(c) && o != r
    requires |Slashed([o, c])| < PATH_MAX && |Slashed([r, c])| < PATH_MAX
    ensures var policy := PolicyFrom(Some(Slashed([o, c])), Some(Slashed([r, c])));
            && policy == On(Slashed([o, c]), Slashed([r, c])) && !Siblings([o, c], [r, c])
            && !Follows([o, c], [r, c], [o, c], "..") && Follows([o, c], [r, c], [o, c], "../" + c)
            && Resolve([r, c], "../" + c) == [r, c] && Mapped(policy, Resolve([o, c], "../" + c)) == [r, c]
  {
    assert IsPath([o, c]) && IsPath([r, c]) && [o, c][0] == o && [r, c][0] == r;
    assert Separate([o, c], [r, c]);
    hide *;
    Configured([o, c], [r, c]);
    LeavingRoots([o, c], [r, c], c);
    MappedByRoots(PolicyFrom(Some(Slashed([o, c])), Some(Slashed([r, c]))), [o, c]);
  }

  lemma LeavingRoots(f: Path, t: Path, c: string)
    requires Separate(f, t) && IsName(c) && f[|f| - 1] == c && t[|t| - 1] == c
    ensures !Siblings(f, t) && !Follows(f, t, f, "..") && Follows(f, t, f, "../" + c)
    ensures Resolve(f, "../" + c) == f && Resolve(t, "../" + c) == t && Redirect(f, t, f) == t
  {
    var above, beside := f[..|f| - 1], t[..|t| - 1];
    assert f == above + [c] && t == beside + [c] && t + f[|f|..] == t;
    assert above != beside && Redirect(f, t, above) == above && Redirect(f, t, beside) == beside;
    UpAndDown(f, c);
    UpAndDown(t, c);
    DotDot(f);
    DotDot(t);
    hide Resolve, Redirect, Separate, Follows, IsName;
    FollowsExactly(f, t, f, "..");
    FollowsExactly(f, t, f, "../" + c);
  }
}
