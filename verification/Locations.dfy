/**
  What a rewritten argument names.  The kernel resolves lexically in a symlink-free tree
  (section 4.13 of IEEE Std 1003.1-2017, Base Definitions): dot-dot at the root stays there.
 */
module Locations {
  import opened CStrings
  import opened Components
  import opened CleanerLaws
  import opened Mapping
  import opened Policies
  import opened Rewriter

  /** The directories a process holds: its working directory and its open directory descriptors. */
  datatype Sys = Sys(cwd: Path, fds: map<int, Path>)

  ghost predicate ValidSys(sys: Sys) {
    IsPath(sys.cwd) && forall fd | fd in sys.fds :: IsPath(sys.fds[fd])
  }

  /** How libc spells those directories to the interposer. */
  function Answers(sys: Sys): Kernel {
    Kernel(Some(Render(true, sys.cwd)), map fd | fd in sys.fds :: Render(true, sys.fds[fd]))
  }

  function Resolve(base: Path, arg: string): Path {
    Run(true, if IsAbsolute(arg) then [] else base, Parse(arg))
  }

  predicate Known(sys: Sys, dirfd: int, arg: string) {
    IsAbsolute(arg) || dirfd == AT_FDCWD || dirfd in sys.fds
  }

  function BaseOf(sys: Sys, dirfd: int): Path {
    if dirfd == AT_FDCWD then sys.cwd else if dirfd in sys.fds then sys.fds[dirfd] else []
  }

  /** The location a descriptor and a path name. */
  function Named(sys: Sys, dirfd: int, arg: string): Path {
    Resolve(BaseOf(sys, dirfd), arg)
  }

  /** The mapping a policy means. */
  function Mapped(policy: Policy, p: Path): Path {
    if policy.On? then Redirect(Parse(policy.from), Parse(policy.to), p) else p
  }

  /** A disabled policy, or one whose source root stands for a whole tree. */
  predicate Usable(policy: Policy) {
    Stored(policy) && (policy.On? ==> Canonical(policy.from))
  }

  /** The path the interposer cleans for an argument. */
  function Spelled(sys: Sys, dirfd: int, arg: string): string {
    if IsAbsolute(arg) then arg else Render(true, BaseOf(sys, dirfd)) + "/" + arg
  }

  /** Where the mapping applies, cleaning and substitution stay within a path buffer. */
  predicate ResolutionFits(policy: Policy, sys: Sys, dirfd: int, arg: string) {
    policy.On? && Parse(policy.from) <= Named(sys, dirfd, arg) ==>
      var spelled := Spelled(sys, dirfd, arg);
      && (if IsAbsolute(arg) then CleanFits(arg, PATH_MAX) else |spelled| < PATH_MAX)
      && |policy.to| + (|Clean(spelled)| - |policy.from|) + 1 <= PATH_MAX
  }

  // ---------------------------------------------------------------- resolution

  lemma NamedIsPath(sys: Sys, dirfd: int, arg: string)
    requires ValidSys(sys)
    ensures IsPath(BaseOf(sys, dirfd)) && IsPath(Named(sys, dirfd, arg))
  {
    RunIsPath(BaseOf(sys, dirfd), Parse(arg));
    RunIsPath([], Parse(arg));
  }

  /** A path of names resolves to itself from anywhere. */
  lemma ResolveNames(base: Path, arg: string)
    requires IsAbsolute(arg) && IsPath(Parse(arg))
    ensures Resolve(base, arg) == Parse(arg)
  {
    RunNames(true, [], Parse(arg));
  }

  lemma CleanRender(p: Path)
    requires IsPath(p)
    ensures Clean(Render(true, p)) == Render(true, p) && IsAbsolute(Render(true, p))
    ensures ComponentsOf(Render(true, p)) == p
  {
    PathSegments(p);
    ParseRender(true, p);
    SettledIsPath(p);
    RunFixed(true, p);
    SettledEndsInNoPop(true, p);
  }

  /** The path the interposer cleans has the components of the location the caller named. */
  lemma SpelledNames(sys: Sys, dirfd: int, arg: string)
    requires ValidSys(sys)
    ensures var spelled := Spelled(sys, dirfd, arg);
            && IsAbsolute(spelled) && ComponentsOf(spelled) == Parse(Clean(spelled)) == Named(sys, dirfd, arg)
            && Cleaned(Clean(spelled))
  {
    var spelled := Spelled(sys, dirfd, arg);
    NamedIsPath(sys, dirfd, arg);
    if !IsAbsolute(arg) {
      var base := BaseOf(sys, dirfd);
      CleanRender(base);
      TwoStages(Render(true, base), arg);
    }
    CleanKeepsComponents(spelled);
    CleanIsCleaned(spelled);
  }

  // ---------------------------------------------------------------- when an argument is replaced

  /** The rewrite of a call, whatever its argument, is one substitution on the cleaned spelling. */
  lemma RewriteIsForward(policy: Policy, sys: Sys, dirfd: int, arg: string, n: nat)
    requires policy.On? && ValidSys(sys) && Known(sys, dirfd, arg)
    ensures var spelled := Spelled(sys, dirfd, arg);
            AnyRewrite(policy, Answers(sys), dirfd, Some(arg), n) ==
            if (if IsAbsolute(arg) then CleanFits(arg, PATH_MAX) else |spelled| < PATH_MAX)
            then Forward(policy, Clean(spelled), n) else None
  {
    if !IsAbsolute(arg) {
      NamedIsPath(sys, dirfd, arg);
      CleanRender(BaseOf(sys, dirfd));
    }
  }

  /**
    The fail-open boundary, exactly: an argument is replaced when the policy is on, cleaning stays
    within the buffer, the location is under the source root and the result fits; and then the
    replacement parses into the mapped location.
   */
  lemma ReplacedExactly(policy: Policy, sys: Sys, dirfd: int, arg: string, n: nat)
    requires policy.On? && Usable(policy) && ValidSys(sys) && Known(sys, dirfd, arg)
    ensures var spelled := Spelled(sys, dirfd, arg);
            var hit := AnyRewrite(policy, Answers(sys), dirfd, Some(arg), n);
            && (hit.Some? <==>
                && (if IsAbsolute(arg) then CleanFits(arg, PATH_MAX) else |spelled| < PATH_MAX)
                && Parse(policy.from) <= Named(sys, dirfd, arg)
                && |policy.to| + (|Clean(spelled)| - |policy.from|) + 1 <= n)
            && (hit.Some? ==> Parse(hit.value) == Mapped(policy, Named(sys, dirfd, arg)))
  {
    RewriteIsForward(policy, sys, dirfd, arg, n);
    SpelledNames(sys, dirfd, arg);
    SwapMapsComponents(Clean(Spelled(sys, dirfd, arg)), policy.from, policy.to, n);
  }

  /** With a destination no longer than the source, nothing short and under the source root falls through. */
  lemma NeverFallsThrough(policy: Policy, sys: Sys, dirfd: int, arg: string)
    requires policy.On? && Usable(policy) && ValidSys(sys) && Known(sys, dirfd, arg)
    requires |policy.to| <= |policy.from| && |Spelled(sys, dirfd, arg)| < PATH_MAX
    ensures ResolutionFits(policy, sys, dirfd, arg)
    ensures AnyRewrite(policy, Answers(sys), dirfd, Some(arg), PATH_MAX).Some? <==>
            Parse(policy.from) <= Named(sys, dirfd, arg)
  {
    var spelled := Spelled(sys, dirfd, arg);
    SpelledNames(sys, dirfd, arg);
    ShortSourceFits(spelled, PATH_MAX);
    CleanNeverLonger(spelled);
    ReplacedExactly(policy, sys, dirfd, arg, PATH_MAX);
  }

  // ---------------------------------------------------------------- what a replacement looks like

  lemma IsPathTail(p: Path, q: Path)
    requires IsPath(p + q)
    ensures IsPath(q)
  {
    forall i | 0 <= i < |q| ensures IsName(q[i]) {
      assert q[i] == (p + q)[|p| + i];
    }
  }

  lemma ForwardContained(policy: Policy, path: string, n: nat)
    requires Stored(policy) && Cleaned(path) && Forward(policy, path, n).Some?
    ensures var q := Forward(policy, path, n).value;
            IsAbsolute(q) && IsPath(Parse(q)) && Parse(policy.to) <= Parse(q)
  {
    MatchSplits(path, policy.from);
    var rest := path[|policy.from|..];
    ParseAppend(policy.to, rest);
    CanonicalMeans(policy.to);
    IsPathTail(Parse(policy.from), Parse(rest));
  }

  /**
    Containment: every replacement is absolute, starts with the destination's components, holds no
    dot or dot-dot, and so resolves to exactly its own components from any directory.
   */
  lemma Contained(policy: Policy, sys: Sys, dirfd: int, arg: string, n: nat, from: Path)
    requires Stored(policy) && ValidSys(sys) && Known(sys, dirfd, arg)
    requires AnyRewrite(policy, Answers(sys), dirfd, Some(arg), n).Some?
    ensures var q := AnyRewrite(policy, Answers(sys), dirfd, Some(arg), n).value;
            && IsAbsolute(q) && IsPath(Parse(q)) && Parse(policy.to) <= Parse(q)
            && Resolve(from, q) == Parse(q)
  {
    RewriteIsForward(policy, sys, dirfd, arg, n);
    SpelledNames(sys, dirfd, arg);
    ForwardContained(policy, Clean(Spelled(sys, dirfd, arg)), n);
    ResolveNames(from, AnyRewrite(policy, Answers(sys), dirfd, Some(arg), n).value);
  }

  /** With separate roots a replacement is never replaced again. */
  lemma ReplacedOnce(policy: Policy, sys: Sys, dirfd: int, arg: string, n: nat, m: nat)
    requires policy.On? && Usable(policy) && Separate(Parse(policy.from), Parse(policy.to))
    requires ValidSys(sys) && Known(sys, dirfd, arg)
    requires AnyRewrite(policy, Answers(sys), dirfd, Some(arg), n).Some?
    ensures var q := AnyRewrite(policy, Answers(sys), dirfd, Some(arg), n).value;
            AnyRewrite(policy, Answers(sys), dirfd, Some(q), m) == None
  {
    var q := AnyRewrite(policy, Answers(sys), dirfd, Some(arg), n).value;
    Contained(policy, sys, dirfd, arg, n, BaseOf(sys, dirfd));
    ReplacedExactly(policy, sys, dirfd, q, m);
    UnderOne(Parse(policy.to), Parse(policy.from), Parse(q));
  }

  /** A relative path that resolves to somewhere under the destination is left alone. */
  lemma StayingUnderDestination(policy: Policy, sys: Sys, dirfd: int, arg: string, n: nat)
    requires policy.On? && Usable(policy) && Separate(Parse(policy.from), Parse(policy.to))
    requires ValidSys(sys) && Known(sys, dirfd, arg) && Parse(policy.to) <= Named(sys, dirfd, arg)
    ensures AtArgument(policy, Answers(sys), dirfd, arg, n) == (dirfd, arg)
  {
    ReplacedExactly(policy, sys, dirfd, arg, n);
    UnderOne(Parse(policy.to), Parse(policy.from), Named(sys, dirfd, arg));
  }

  /** A working directory libc cannot spell from the root leaves relative arguments alone. */
  lemma UnreachableCwd(policy: Policy, k: Kernel, arg: string, n: nat)
    requires Stored(policy) && k.cwd.Some? && k.cwd.value != "" && !IsAbsolute(k.cwd.value) && !IsAbsolute(arg)
    ensures AtArgument(policy, k, AT_FDCWD, arg, n) == (AT_FDCWD, arg)
  {
    if policy.On? {
      CanonicalMeans(policy.from);
      CleanKeepsComponents(k.cwd.value + "/" + arg);
      assert policy.from[0] == '/';
    }
  }

  /** An absolute argument keeps its descriptor, whether it is replaced or not. */
  lemma AbsoluteKeepsDescriptor(policy: Policy, k: Kernel, dirfd: int, arg: string, n: nat)
    requires IsAbsolute(arg)
    ensures AtArgument(policy, k, dirfd, arg, n) == (dirfd, PathArgument(policy, arg, n))
  {
  }

  /**
    Whatever libc answers, a relative argument is the absolute one spelled behind its directory's text, when
    that replaces anything; it is the caller's own, descriptor and all, when the directory cannot be
    read, does not start at the root, or leaves no room.
   */
  lemma RelativeIsAbsolute(policy: Policy, k: Kernel, dirfd: int, arg: string, n: nat)
    requires Stored(policy) && !IsAbsolute(arg)
    ensures var base :=
              if dirfd == AT_FDCWD then k.cwd
              else if dirfd in k.links && IsAbsolute(k.links[dirfd]) && |k.links[dirfd]| < PATH_MAX - 1
              then Some(Clean(k.links[dirfd]))
              else None;
            AtArgument(policy, k, dirfd, arg, n) ==
            if base.None? || |base.value + "/" + arg| >= PATH_MAX then (dirfd, arg)
            else
              var hit := AbsoluteRewrite(policy, Some(base.value + "/" + arg), n);
              if hit.Some? then (AT_FDCWD, hit.value) else (dirfd, arg)
  {
    if Base(k, dirfd).Some? {
      var joined := Base(k, dirfd).value + "/" + arg;
      if |joined| < PATH_MAX {
        if IsAbsolute(joined) {
          ShortSourceFits(joined, PATH_MAX);
        } else if policy.On? {
          CleanKeepsComponents(joined);
          CanonicalMeans(policy.from);
        }
      }
    }
  }

  /** A descriptor `readlink` cannot name by an absolute text, or an unknown working directory, changes nothing. */
  lemma UnreadableBase(policy: Policy, k: Kernel, dirfd: int, arg: string, n: nat)
    requires Stored(policy) && !IsAbsolute(arg)
    requires if dirfd == AT_FDCWD then k.cwd.None? else dirfd !in k.links || !IsAbsolute(k.links[dirfd])
    ensures AtArgument(policy, k, dirfd, arg, n) == (dirfd, arg)
  {
    RelativeIsAbsolute(policy, k, dirfd, arg, n);
  }

  // ---------------------------------------------------------------- the meaning of a call

  /**
    The descriptor and path handed to libc name the mapped location of what the caller named,
    whether or not the descriptor was replaced, exactly when resolution fits (or the two roots
    are one and there is nothing to map).
   */
  lemma AtCallMeaning(policy: Policy, sys: Sys, dirfd: int, arg: string)
    requires Usable(policy) && ValidSys(sys) && Known(sys, dirfd, arg)
    ensures var (dirfd', arg') := AtArgument(policy, Answers(sys), dirfd, arg, PATH_MAX);
            && Known(sys, dirfd', arg')
            && (Named(sys, dirfd', arg') == Mapped(policy, Named(sys, dirfd, arg)) <==>
                || ResolutionFits(policy, sys, dirfd, arg)
                || (policy.On? && Parse(policy.from) == Parse(policy.to)))
  {
    hide Parse, Run, Clean, CleanFits;
    var p := Named(sys, dirfd, arg);
    if policy.On? {
      ReplacedExactly(policy, sys, dirfd, arg, PATH_MAX);
      if Parse(policy.from) <= p {
        assert p == Parse(policy.from) + p[|Parse(policy.from)|..];
        if AnyRewrite(policy, Answers(sys), dirfd, Some(arg), PATH_MAX).Some? {
          var (dirfd', _) := AtArgument(policy, Answers(sys), dirfd, arg, PATH_MAX);
          Contained(policy, sys, dirfd, arg, PATH_MAX, BaseOf(sys, dirfd'));
        } else if Mapped(policy, p) == p {
          assert |Parse(policy.from)| == |Parse(policy.to)|;
          assert p[..|Parse(policy.from)|] == Mapped(policy, p)[..|Parse(policy.to)|];
        }
      }
    }
  }
}
