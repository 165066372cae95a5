/**
  The working directory over whole runs: the kernel holds a real directory, the program
  believes in a virtual one, and `chdir` and `getcwd` stand between them.
 */
module WorkingDirectory {
  import opened CStrings
  import opened Components
  import opened CleanerLaws
  import opened Mapping
  import opened Policies
  import opened Rewriter
  import opened Locations
  import opened Walks
  import Cleaner

  /** One `chdir` call, with the directories that exist when it is made. */
  datatype Call = Chdir(arg: string, dirs: set<Path>)

  function At(cwd: Path): Sys {
    Sys(cwd, map[])
  }

  // ---------------------------------------------------------------- the two machines

  /** `real_chdir`: no such directory, or the resolved location. */
  function KernelChdir(cwd: Path, arg: string, dirs: set<Path>): Path {
    if arg != "" && Resolve(cwd, arg) in dirs then Resolve(cwd, arg) else cwd
  }

  /** The interposed `chdir`. */
  function RealNext(policy: Policy, cwd: Path, call: Call): Path {
    KernelChdir(cwd, AtArgument(policy, Answers(At(cwd)), AT_FDCWD, call.arg, PATH_MAX).1, call.dirs)
  }

  /** What the program expects: its own directory moves, in a tree where a location exists if its image does. */
  function VirtualNext(policy: Policy, cwd: Path, call: Call): Path {
    if call.arg != "" && Mapped(policy, Resolve(cwd, call.arg)) in call.dirs then Resolve(cwd, call.arg) else cwd
  }

  function RealRun(policy: Policy, cwd: Path, calls: seq<Call>): Path
    decreases |calls|
  {
    if calls == [] then cwd else RealRun(policy, RealNext(policy, cwd, calls[0]), calls[1..])
  }

  function VirtualRun(policy: Policy, cwd: Path, calls: seq<Call>): Path
    decreases |calls|
  {
    if calls == [] then cwd else VirtualRun(policy, VirtualNext(policy, cwd, calls[0]), calls[1..])
  }

  /** The interposed `getcwd`: the reverse substitution, or the real directory when that falls open. */
  function Getcwd(policy: Policy, cwd: Path, size: nat): Option<string> {
    var text := Render(true, cwd);
    if |text| + 1 > size then None
    else if Reverse(policy, text, size).Some? then Reverse(policy, text, size)
    else Some(text)
  }

  // ---------------------------------------------------------------- whole runs

  /** Every call of the run fits and is followed. */
  predicate GoodRun(policy: Policy, host: Path, virt: Path, calls: seq<Call>)
    decreases |calls|
  {
    calls != [] ==>
      && ResolutionFits(policy, At(host), AT_FDCWD, calls[0].arg)
      && (policy.On? ==> Follows(Parse(policy.from), Parse(policy.to), virt, calls[0].arg))
      && GoodRun(policy, RealNext(policy, host, calls[0]), VirtualNext(policy, virt, calls[0]), calls[1..])
  }

  /** The destination and source do not overlap. */
  predicate Disjoint(policy: Policy) {
    Usable(policy) && (policy.On? ==> Separate(Parse(policy.from), Parse(policy.to)))
  }

  lemma EmptyArgument(policy: Policy, cwd: Path)
    requires Usable(policy) && IsPath(cwd) && (policy.On? ==> !(Parse(policy.from) <= cwd))
    ensures AtArgument(policy, Answers(At(cwd)), AT_FDCWD, "", PATH_MAX).1 == ""
  {
    if policy.On? {
      ReplacedExactly(policy, At(cwd), AT_FDCWD, "", PATH_MAX);
    }
  }

  /** An argument that is not empty is not handed on as empty. */
  lemma NonEmptyArgument(policy: Policy, cwd: Path, arg: string)
    requires Usable(policy) && IsPath(cwd) && arg != ""
    ensures AtArgument(policy, Answers(At(cwd)), AT_FDCWD, arg, PATH_MAX).1 != ""
  {
  }

  /** A fitting `chdir` moves the kernel to the mapped location of what the argument names. */
  lemma RealNextMeans(policy: Policy, cwd: Path, call: Call)
    requires Disjoint(policy) && IsPath(cwd) && (policy.On? ==> !(Parse(policy.from) <= cwd))
    requires ResolutionFits(policy, At(cwd), AT_FDCWD, call.arg)
    ensures var target := Mapped(policy, Resolve(cwd, call.arg));
            RealNext(policy, cwd, call) == if call.arg != "" && target in call.dirs then target else cwd
    ensures IsPath(RealNext(policy, cwd, call))
    ensures policy.On? ==> !(Parse(policy.from) <= RealNext(policy, cwd, call))
  {
    if call.arg == "" {
      EmptyArgument(policy, cwd);
    } else {
      NonEmptyArgument(policy, cwd, call.arg);
      AtCallMeaning(policy, At(cwd), AT_FDCWD, call.arg);
      ChdirKeepsDescriptor(policy, cwd, call.arg);
      NamedIsPath(At(cwd), AT_FDCWD, call.arg);
      if policy.On? {
        RedirectIsPath(Parse(policy.from), Parse(policy.to), Resolve(cwd, call.arg));
        RedirectOnce(Parse(policy.from), Parse(policy.to), Resolve(cwd, call.arg));
      }
    }
  }

  lemma ChdirKeepsDescriptor(policy: Policy, cwd: Path, arg: string)
    ensures AtArgument(policy, Answers(At(cwd)), AT_FDCWD, arg, PATH_MAX).0 == AT_FDCWD
  {
  }

  /** Where the argument the interposer hands on leads, against where the program means to go. */
  lemma HandedOnExactly(policy: Policy, virt: Path, arg: string)
    requires policy.On? && Disjoint(policy) && IsPath(virt)
    ensures var host := Mapped(policy, virt);
            Resolve(host, AtArgument(policy, Answers(At(host)), AT_FDCWD, arg, PATH_MAX).1) ==
            Mapped(policy, Resolve(virt, arg)) <==>
            ResolutionFits(policy, At(host), AT_FDCWD, arg) && Follows(Parse(policy.from), Parse(policy.to), virt, arg)
  {
    var f, t, host := Parse(policy.from), Parse(policy.to), Mapped(policy, virt);
    RedirectIsPath(f, t, virt);
    FollowsExactly(f, t, virt, arg);
    AtCallMeaning(policy, At(host), AT_FDCWD, arg);
    ChdirKeepsDescriptor(policy, host, arg);
    if !ResolutionFits(policy, At(host), AT_FDCWD, arg) {
      ReplacedExactly(policy, At(host), AT_FDCWD, arg, PATH_MAX);
      RedirectOnce(f, t, Resolve(virt, arg));
    }
  }

  lemma EmptyIsGood(policy: Policy, virt: Path)
    requires policy.On? && Disjoint(policy) && IsPath(virt)
    ensures ResolutionFits(policy, At(Mapped(policy, virt)), AT_FDCWD, "")
    ensures Follows(Parse(policy.from), Parse(policy.to), virt, "")
  {
    RedirectOnce(Parse(policy.from), Parse(policy.to), virt);
    FollowsExactly(Parse(policy.from), Parse(policy.to), virt, "");
  }

  /**
    A `chdir` keeps the kernel in the image of the program's directory, whatever directories exist,
    exactly when its argument fits and is followed.
   */
  lemma ChdirStepExactly(policy: Policy, virt: Path, arg: string)
    requires policy.On? && Disjoint(policy) && IsPath(virt)
    ensures (forall dirs :: RealNext(policy, Mapped(policy, virt), Chdir(arg, dirs)) ==
                            Mapped(policy, VirtualNext(policy, virt, Chdir(arg, dirs)))) <==>
            && ResolutionFits(policy, At(Mapped(policy, virt)), AT_FDCWD, arg)
            && Follows(Parse(policy.from), Parse(policy.to), virt, arg)
  {
    var f, t, host := Parse(policy.from), Parse(policy.to), Mapped(policy, virt);
    var reached := Resolve(host, AtArgument(policy, Answers(At(host)), AT_FDCWD, arg, PATH_MAX).1);
    var meant := Mapped(policy, Resolve(virt, arg));
    RedirectIsPath(f, t, virt);
    RedirectOnce(f, t, virt);
    HandedOnExactly(policy, virt, arg);
    hide Resolve, AtArgument, Follows, ResolutionFits, Disjoint, IsPath, Mapped;
    if arg == "" {
      EmptyArgument(policy, host);
      EmptyIsGood(policy, virt);
    } else {
      NonEmptyArgument(policy, host, arg);
      var call := Chdir(arg, {reached, meant});
      assert RealNext(policy, host, call) == reached && Mapped(policy, VirtualNext(policy, virt, call)) == meant;
    }
  }

  /** Over every good run of `chdir` calls the real directory is the image of the virtual one. */
  lemma {:induction false} CwdSimulation(policy: Policy, virt: Path, calls: seq<Call>)
    requires Disjoint(policy) && IsPath(virt)
    requires GoodRun(policy, Mapped(policy, virt), virt, calls)
    ensures RealRun(policy, Mapped(policy, virt), calls) == Mapped(policy, VirtualRun(policy, virt, calls))
    ensures IsPath(VirtualRun(policy, virt, calls))
    decreases |calls|
  {
    if calls != [] {
      var host, call := Mapped(policy, virt), calls[0];
      if policy.On? {
        RedirectIsPath(Parse(policy.from), Parse(policy.to), virt);
        RedirectOnce(Parse(policy.from), Parse(policy.to), virt);
        FollowsExactly(Parse(policy.from), Parse(policy.to), virt, call.arg);
      }
      RealNextMeans(policy, host, call);
      NamedIsPath(At(virt), AT_FDCWD, call.arg);
      assert RealNext(policy, host, call) == Mapped(policy, VirtualNext(policy, virt, call));
      CwdSimulation(policy, VirtualNext(policy, virt, call), calls[1..]);
    }
  }

  // ---------------------------------------------------------------- absolute-only calls

  /**
    `open`, `stat` and the other calls that rewrite absolute paths only lead where the program means
    exactly when an absolute argument fits, and when a relative one, handed on unchanged, is
    followed and does not lead into the real source tree.
   */
  lemma AbsoluteOnlyExactly(policy: Policy, virt: Path, arg: string)
    requires policy.On? && Disjoint(policy) && IsPath(virt)
    ensures var f, t := Parse(policy.from), Parse(policy.to);
            Resolve(Mapped(policy, virt), PathArgument(policy, arg, PATH_MAX)) ==
            Mapped(policy, Resolve(virt, arg)) <==>
            if IsAbsolute(arg) then ResolutionFits(policy, At(Mapped(policy, virt)), AT_FDCWD, arg)
            else Follows(f, t, virt, arg) && !(f <= Resolve(Mapped(policy, virt), arg))
  {
    var f, t, host := Parse(policy.from), Parse(policy.to), Mapped(policy, virt);
    if IsAbsolute(arg) {
      RedirectIsPath(f, t, virt);
      AtCallMeaning(policy, At(host), AT_FDCWD, arg);
      ChdirKeepsDescriptor(policy, host, arg);
    } else {
      UntouchedExactly(f, t, virt, arg);
    }
  }

  // ---------------------------------------------------------------- getcwd

  /** Swapping canonical prefixes of a rendered location renders the redirected one. */
  lemma SwapRendered(p: Path, a: string, b: string, n: nat)
    requires IsPath(p) && Canonical(a) && Canonical(b)
    ensures Swap(Render(true, p), a, b, n) ==
            if Parse(a) <= p && |Render(true, Redirect(Parse(a), Parse(b), p))| + 1 <= n
            then Some(Render(true, Redirect(Parse(a), Parse(b), p))) else None
  {
    hide Slashed, Parse, Render;
    RenderIsCleaned(p);
    MatchIsComponentPrefix(Render(true, p), a);
    if Parse(a) <= p {
      var rest := p[|Parse(a)|..];
      assert p == Parse(a) + rest;
      RenderUnder(a, rest);
      RenderUnder(b, rest);
      assert (a + Slashed(rest))[|a|..] == Slashed(rest);
    }
  }

  lemma RenderUnder(a: string, rest: Path)
    requires Canonical(a)
    ensures Render(true, Parse(a) + rest) == a + Slashed(rest)
  {
    CanonicalMeans(a);
    SlashedAppend(Parse(a), rest);
  }

  /**
    `getcwd` answers with the program's own name for its directory, its alias under the source if it
    lies under the destination, exactly when the stored destination has no trailing separator
    or the kernel is not below it.
   */
  lemma GetcwdAnswers(policy: Policy, virt: Path, size: nat)
    requires policy.On? && Disjoint(policy) && IsPath(virt)
    requires |Render(true, Mapped(policy, virt))| + 1 <= size
    requires |Render(true, Redirect(Parse(policy.to), Parse(policy.from), virt))| + 1 <= size
    ensures var f, t := Parse(policy.from), Parse(policy.to);
            Getcwd(policy, Mapped(policy, virt), size) == Some(Render(true, Redirect(t, f, virt))) <==>
            Canonical(policy.to) || !(t <= Mapped(policy, virt))
  {
    var f, t, host := Parse(policy.from), Parse(policy.to), Mapped(policy, virt);
    Aliases(f, t, virt);
    RedirectIsPath(f, t, virt);
    RedirectIsPath(t, f, virt);
    if Canonical(policy.to) {
      SwapRendered(host, policy.to, policy.from, size);
    } else {
      NoReverse(policy, host, size);
      if t <= host {
        RenderIsCleaned(host);
        RenderIsCleaned(Redirect(t, f, virt));
        assert !(t <= Redirect(t, f, virt));
      }
    }
  }

  /** A process that rewrites nothing is told its own directory, exactly when name and NUL fit. */
  lemma GetcwdWhenOff(host: Path, size: nat)
    ensures Getcwd(Off, host, size) == if |Render(true, host)| < size then Some(Render(true, host)) else None
  {
  }

  /**
    The whole answer, for any stored policy, overlapping roots included: none when the kernel's directory does
    not fit, the directory itself when rewriting is off, FROM and what lies behind TO when the
    directory is under a canonical TO, or is a TO of the root, and that fits, and otherwise the
    directory itself.
   */
  lemma GetcwdExactly(policy: Policy, host: Path, size: nat)
    requires Stored(policy) && IsPath(host)
    ensures var text := Render(true, host);
            Getcwd(policy, host, size) ==
            if |text| >= size then None
            else if policy.Off? then Some(text)
            else
              var t := Parse(policy.to);
              if !(t <= host && (Canonical(policy.to) || t == host == [])) then Some(text)
              else
                var alias := policy.from + Slashed(host[|t|..]);
                if |alias| < size then Some(alias) else Some(text)
  {
    if policy.On? {
      var text, t := Render(true, host), Parse(policy.to);
      RenderIsCleaned(host);
      SubstitutesExactly(policy, text, size);
      if Canonical(policy.to) && t <= host {
        assert t + host[|t|..] == host;
        RenderUnder(policy.to, host[|t|..]);
      } else if !Canonical(policy.to) {
        WholeRoot(policy.to, host);
      }
    }
  }

  /** A location's text never is a prefix with a trailing separator, other than the root. */
  lemma WholeRoot(prefix: string, host: Path)
    requires Cleaned(prefix) && !Canonical(prefix) && IsPath(host)
    ensures Render(true, host) == prefix <==> Parse(prefix) == host == []
    ensures Slashed([]) == ""
  {
    RenderIsCleaned(host);
    CanonicalMeans(prefix);
    if host != [] {
      Cleaner.SlashedEnd(host);
    }
  }

  /** A destination stored with a trailing separator is never recognised in the kernel's answer. */
  lemma NoReverse(policy: Policy, host: Path, size: nat)
    requires policy.On? && Stored(policy) && Separate(Parse(policy.from), Parse(policy.to))
    requires IsPath(host) && !Canonical(policy.to)
    ensures Reverse(policy, Render(true, host), size) == None
  {
    RenderIsCleaned(host);
    NonCanonicalMatchesItself(Render(true, host), policy.to);
    CanonicalMeans(policy.to);
    if host != [] {
      Cleaner.SlashedEnd(host);
    }
    assert Parse(policy.to) != [];
  }

  /** Where the program is not under the destination, its alias is its directory. */
  lemma AliasIsVirtual(policy: Policy, virt: Path)
    requires policy.On? && Disjoint(policy)
    ensures Redirect(Parse(policy.to), Parse(policy.from), virt) == virt <==> !(Parse(policy.to) <= virt)
  {
  }

  /** The run theorem read through `getcwd`: after any good run it names the program's own directory. */
  lemma GetcwdAfterRun(policy: Policy, virt: Path, calls: seq<Call>, size: nat)
    requires policy.On? && Disjoint(policy) && Canonical(policy.to) && IsPath(virt)
    requires GoodRun(policy, Mapped(policy, virt), virt, calls)
    requires var v := VirtualRun(policy, virt, calls);
             && |Render(true, Mapped(policy, v))| + 1 <= size
             && |Render(true, Redirect(Parse(policy.to), Parse(policy.from), v))| + 1 <= size
    ensures var v := VirtualRun(policy, virt, calls);
            Getcwd(policy, RealRun(policy, Mapped(policy, virt), calls), size) ==
            Some(Render(true, if Parse(policy.to) <= v then Redirect(Parse(policy.to), Parse(policy.from), v) else v))
  {
    CwdSimulation(policy, virt, calls);
    GetcwdAnswers(policy, VirtualRun(policy, virt, calls), size);
  }

  // ---------------------------------------------------------------- chdir(getcwd())

  /** Going where `getcwd` says does not move the kernel, for any buffer size and whatever exists. */
  lemma ChdirGetcwdStays(policy: Policy, cwd: Path, size: nat, dirs: set<Path>)
    requires policy.On? && Disjoint(policy) && IsPath(cwd) && !(Parse(policy.from) <= cwd)
    requires size <= PATH_MAX && Getcwd(policy, cwd, size).Some?
    ensures RealNext(policy, cwd, Chdir(Getcwd(policy, cwd, size).value, dirs)) == cwd
  {
    var f, t, g := Parse(policy.from), Parse(policy.to), Getcwd(policy, cwd, size).value;
    var named := if Reverse(policy, Render(true, cwd), size).Some? then Redirect(t, f, cwd) else cwd;
    if Canonical(policy.to) {
      SwapRendered(cwd, policy.to, policy.from, size);
    } else {
      NoReverse(policy, cwd, size);
    }
    assert g == Render(true, named);
    Aliases(f, t, cwd);
    assert Mapped(policy, named) == cwd;
    RedirectIsPath(t, f, cwd);
    CleanRender(named);
    assert Resolve(cwd, g) == named;
    ShortSourceFits(g, PATH_MAX);
    if f <= named {
      CanonicalMeans(policy.from);
      CanonicalMeans(policy.to);
      assert cwd == t + named[|f|..] && named == f + named[|f|..];
      SlashedAppend(t, named[|f|..]);
      SlashedAppend(f, named[|f|..]);
    }
    RealNextMeans(policy, cwd, Chdir(g, dirs));
  }

  /** A FROM stored with a trailing separator never rewrites a path that cleans without one. */
  lemma NoForward(policy: Policy, p: Path, arg: string, n: nat)
    requires policy.On? && Stored(policy) && !Canonical(policy.from) && Parse(policy.from) != []
    requires IsPath(p) && Clean(arg) == Render(true, p)
    ensures AbsoluteRewrite(policy, Some(arg), n) == None
  {
    RenderIsCleaned(p);
    NonCanonicalMatchesItself(Render(true, p), policy.from);
    CanonicalMeans(policy.from);
    if p != [] {
      Cleaner.SlashedEnd(p);
    }
  }

  lemma TrailingSeparatorCleans(p: Path)
    requires IsPath(p) && p != []
    ensures var text := Slashed(p) + "/";
            IsAbsolute(text) && Parse(text) == ComponentsOf(text) == p && Clean(text) == Render(true, p)
  {
    PathSegments(p);
    ParseSlashed(p);
    SlashedStart(p);
    ParseTrailingSlash(Slashed(p));
    SettledIsPath(p);
    RunFixed(true, p);
    SettledEndsInNoPop(true, p);
  }

  /** An absolute argument that is not rewritten takes the kernel to its components. */
  lemma UntouchedChdir(policy: Policy, cwd: Path, arg: string, dirs: set<Path>)
    requires IsAbsolute(arg) && AbsoluteRewrite(policy, Some(arg), PATH_MAX) == None
    ensures RealNext(policy, cwd, Chdir(arg, dirs)) == if ComponentsOf(arg) in dirs then ComponentsOf(arg) else cwd
  {
  }

  /** Under a FROM stored with a trailing separator the answer of `getcwd`, when rewritten, leads away. */
  lemma ChdirGetcwdMoves(policy: Policy)
    requires policy.On? && Stored(policy) && Separate(Parse(policy.from), Parse(policy.to))
    requires !Canonical(policy.from) && Canonical(policy.to)
    requires |policy.from| < PATH_MAX && |policy.to| < PATH_MAX
    ensures var t, f := Parse(policy.to), Parse(policy.from);
            && IsPath(t) && !(f <= t) && Getcwd(policy, t, PATH_MAX) == Some(policy.from)
            && RealNext(policy, t, Chdir(policy.from, {f})) == f != t
  {
    var t, f := Parse(policy.to), Parse(policy.from);
    CanonicalMeans(policy.to);
    CanonicalMeans(policy.from);
    assert f != [] && policy.from == Slashed(f) + "/";
    TrailingSeparatorCleans(f);
    NoForward(policy, f, policy.from, PATH_MAX);
    UntouchedChdir(policy, t, policy.from, {f});
    hide Parse, Clean, Slashed, ComponentsOf;
    assert Render(true, t) == policy.to && policy.to[|policy.to|..] == "";
    assert policy.from + "" == policy.from;
  }

  /**
    Exactly for which stored policies with separate roots `chdir(getcwd())` never moves a process
    outside the source: a canonical source, or a destination that is never recognised.
   */
  lemma ChdirGetcwdExactly(policy: Policy)
    requires policy.On? && Stored(policy) && Separate(Parse(policy.from), Parse(policy.to))
    requires |policy.from| < PATH_MAX && |policy.to| < PATH_MAX
    ensures (forall cwd, size: nat, dirs |
               IsPath(cwd) && !(Parse(policy.from) <= cwd) && size <= PATH_MAX && Getcwd(policy, cwd, size).Some? ::
               RealNext(policy, cwd, Chdir(Getcwd(policy, cwd, size).value, dirs)) == cwd) <==>
            Canonical(policy.from) || !Canonical(policy.to)
  {
    if Canonical(policy.from) || !Canonical(policy.to) {
      forall cwd, size: nat, dirs |
        IsPath(cwd) && !(Parse(policy.from) <= cwd) && size <= PATH_MAX && Getcwd(policy, cwd, size).Some?
        ensures RealNext(policy, cwd, Chdir(Getcwd(policy, cwd, size).value, dirs)) == cwd
      {
        if Canonical(policy.from) {
          ChdirGetcwdStays(policy, cwd, size, dirs);
        } else {
          ChdirGetcwdUnseen(policy, cwd, size, dirs);
        }
      }
    } else {
      ChdirGetcwdMoves(policy);
      var t, f := Parse(policy.to), Parse(policy.from);
      assert RealNext(policy, t, Chdir(Getcwd(policy, t, PATH_MAX).value, {f})) != t;
    }
  }

  lemma ChdirGetcwdUnseen(policy: Policy, cwd: Path, size: nat, dirs: set<Path>)
    requires policy.On? && Stored(policy) && Separate(Parse(policy.from), Parse(policy.to))
    requires !Canonical(policy.from) && !Canonical(policy.to) && IsPath(cwd)
    requires size <= PATH_MAX && Getcwd(policy, cwd, size).Some?
    ensures RealNext(policy, cwd, Chdir(Getcwd(policy, cwd, size).value, dirs)) == cwd
  {
    var text := Render(true, cwd);
    NoReverse(policy, cwd, size);
    CleanRender(cwd);
    NoForward(policy, cwd, text, PATH_MAX);
    UntouchedChdir(policy, cwd, text, dirs);
  }

  /** Every call of the run fits. */
  predicate FittingRun(policy: Policy, cwd: Path, calls: seq<Call>)
    decreases |calls|
  {
    calls != [] ==>
      && ResolutionFits(policy, At(cwd), AT_FDCWD, calls[0].arg)
      && FittingRun(policy, RealNext(policy, cwd, calls[0]), calls[1..])
  }

  /** A process that starts outside the source never enters it. */
  lemma {:induction false} StaysOutside(policy: Policy, cwd: Path, calls: seq<Call>)
    requires policy.On? && Disjoint(policy) && IsPath(cwd) && !(Parse(policy.from) <= cwd)
    requires FittingRun(policy, cwd, calls)
    ensures IsPath(RealRun(policy, cwd, calls)) && !(Parse(policy.from) <= RealRun(policy, cwd, calls))
    decreases |calls|
  {
    if calls != [] {
      RealNextMeans(policy, cwd, calls[0]);
      StaysOutside(policy, RealNext(policy, cwd, calls[0]), calls[1..]);
    }
  }

  /** In every state reached from outside the source, `chdir(getcwd())` is a no-op on the kernel. */
  lemma ChdirGetcwdIsNoOp(policy: Policy, start: Path, calls: seq<Call>, size: nat, dirs: set<Path>)
    requires policy.On? && Disjoint(policy) && IsPath(start) && !(Parse(policy.from) <= start)
    requires FittingRun(policy, start, calls) && size <= PATH_MAX
    requires Getcwd(policy, RealRun(policy, start, calls), size).Some?
    ensures var cwd := RealRun(policy, start, calls);
            RealNext(policy, cwd, Chdir(Getcwd(policy, cwd, size).value, dirs)) == cwd
  {
    StaysOutside(policy, start, calls);
    ChdirGetcwdStays(policy, RealRun(policy, start, calls), size, dirs);
  }
}
