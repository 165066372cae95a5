/** What cleaning a path means for its components, its length and a second cleaning. */
module CleanerLaws {
  import opened CStrings
  import opened Components
  import Cleaner

  // ---------------------------------------------------------------- components of the output

  lemma ParseClean(s: string)
    ensures Parse(Clean(s)) == Parse(Render(IsAbsolute(s), ComponentsOf(s)))
    ensures Clean(s) != "" && (IsAbsolute(Clean(s)) <==> IsAbsolute(s))
    ensures Settled(IsAbsolute(s), ComponentsOf(s)) && AreSegments(ComponentsOf(s))
  {
    hide Run, EndsInPop, Render, Slashed;
    var rooted, stack := IsAbsolute(s), ComponentsOf(s);
    RunSettled(rooted, [], Parse(s));
    SettledSegments(rooted, stack);
    ParseRender(rooted, stack);
    ParseTrailingSlash(Render(rooted, stack));
    assert Render(rooted, stack) + "" == Render(rooted, stack);
  }

  /** Cleaning keeps the components, keeps whether the path is absolute, and leaves nothing to resolve. */
  lemma CleanKeepsComponents(s: string)
    ensures ComponentsOf(Clean(s)) == ComponentsOf(s)
    ensures Clean(s) != "" && (IsAbsolute(Clean(s)) <==> IsAbsolute(s))
    ensures IsAbsolute(s) ==> Parse(Clean(s)) == ComponentsOf(s) && IsPath(Parse(Clean(s)))
    ensures !EndsInPop(IsAbsolute(s), Parse(Clean(s)))
  {
    var rooted, stack := IsAbsolute(s), ComponentsOf(s);
    ParseClean(s);
    ParseRender(rooted, stack);
    RunFixed(rooted, stack);
    SettledEndsInNoPop(rooted, stack);
    assert Run(rooted, [], ["."]) == Run(rooted, [], []);
    if rooted {
      SettledIsPath(stack);
    }
  }

  lemma SettledSegments(rooted: bool, stack: Path)
    requires Settled(rooted, stack)
    ensures AreSegments(stack)
  {
  }

  lemma SettledEndsInNoPop(rooted: bool, stack: Path)
    requires Settled(rooted, stack)
    ensures !EndsInPop(rooted, stack)
  {
  }

  /** A second cleaning drops the trailing separator and a third changes nothing. */
  lemma FixedAfterTwo(s: string)
    ensures Clean(Clean(s)) == Render(IsAbsolute(s), ComponentsOf(s))
    ensures Clean(Clean(Clean(s))) == Clean(Clean(s))
    ensures Clean(Clean(s)) == Clean(s) <==> !EndsInPop(IsAbsolute(s), Parse(s))
  {
    CleanKeepsComponents(s);
    CleanKeepsComponents(Clean(s));
  }

  // ---------------------------------------------------------------- lengths

  lemma {:induction false} RunShrinks(rooted: bool, cs: seq<string>)
    requires AreSegments(cs)
    ensures |Slashed(Run(rooted, [], cs))| <= |Slashed(cs)|
    ensures TrimDots(cs) != cs ==> |Slashed(Run(rooted, [], cs))| + 2 <= |Slashed(cs)|
    ensures EndsInPop(rooted, cs) ==> |Slashed(Run(rooted, [], cs))| + 2 <= |Slashed(cs)|
  {
    if cs != [] {
      var m := |cs| - 1;
      var stack := Run(rooted, [], cs[..m]);
      RunShrinks(rooted, cs[..m]);
      assert |Slashed(cs)| == |Slashed(cs[..m])| + 1 + |cs[m]|;
      SlashedSnoc(stack, cs[m]);
      if stack != [] {
        assert |Slashed(stack)| == |Slashed(stack[..|stack| - 1])| + 1 + |stack[|stack| - 1]|;
      }
      hide Slashed;
    }
  }

  lemma {:induction false} ParseShrinks(s: string)
    ensures |Slashed(Parse(s))| <= |s| + if IsAbsolute(s) then 0 else 1
    decreases |s|
  {
    if s == "" {
    } else if s[0] == '/' {
      ParseShrinks(s[1..]);
    } else {
      var n := SegmentLength(s);
      ParseShrinks(s[n..]);
      SlashedAppend([s[..n]], Parse(s[n..]));
      assert Slashed([s[..n]]) == Slashed([]) + "/" + s[..n];
      assert [s[..n]][..0] == [];
    }
  }

  lemma RenderLength(rooted: bool, stack: Path)
    requires AreSegments(stack)
    ensures |Render(rooted, stack)| == if stack == [] then 1 else |Slashed(stack)| - if rooted then 0 else 1
    ensures |stack| <= |Render(rooted, stack)|
  {
  }

  lemma {:induction false} CountSegments(stack: Path)
    requires AreSegments(stack)
    ensures 2 * |stack| <= |Slashed(stack)|
  {
    if stack != [] {
      CountSegments(stack[..|stack| - 1]);
    }
  }

  /** Cleaning never lengthens a path. */
  lemma CleanNeverLonger(s: string)
    requires s != ""
    ensures |Clean(s)| <= |s|
  {
    var rooted, cs, stack := IsAbsolute(s), Parse(s), ComponentsOf(s);
    ParseShrinks(s);
    RunShrinks(rooted, cs);
    RunSettled(rooted, [], cs);
    SettledSegments(rooted, stack);
    RenderLength(rooted, stack);
  }

  /** A source shorter than the destination is always cleaned. */
  lemma ShortSourceFits(s: string, n: nat)
    requires |s| < n <= PATH_MAX && n >= 2
    ensures CleanFits(s, n)
  {
    var rooted, cs := IsAbsolute(s), Parse(s);
    forall k | 0 <= k <= |cs| ensures Within(rooted, Run(rooted, [], cs[..k]), n) {
      var stack := Run(rooted, [], cs[..k]);
      ParseShrinks(s);
      assert cs == cs[..k] + cs[k..];
      SlashedAppend(cs[..k], cs[k..]);
      RunShrinks(rooted, cs[..k]);
      RunSettled(rooted, [], cs[..k]);
      SettledSegments(rooted, stack);
      RenderLength(rooted, stack);
    }
  }

  /** The length of the stack rendered after the first k components. */
  function PrefixLength(s: string, k: nat): nat
    requires k <= |Parse(s)|
  {
    |Render(IsAbsolute(s), Run(IsAbsolute(s), [], Parse(s)[..k]))|
  }

  /** With a buffer of at most PATH_MAX bytes the segment table cannot overflow: only lengths decide. */
  lemma OnlyLengthsDecide(s: string, n: nat)
    requires n <= PATH_MAX
    ensures CleanFits(s, n) <==> forall k | 0 <= k <= |Parse(s)| :: PrefixLength(s, k) < n
  {
    var rooted, cs := IsAbsolute(s), Parse(s);
    forall k | 0 <= k <= |cs|
      ensures Within(rooted, Run(rooted, [], cs[..k]), n) <==> PrefixLength(s, k) < n
    {
      RunSettled(rooted, [], cs[..k]);
      SettledSegments(rooted, Run(rooted, [], cs[..k]));
      RenderLength(rooted, Run(rooted, [], cs[..k]));
    }
  }

  lemma {:induction false} TrimDotsIsPrefix(cs: seq<string>)
    ensures TrimDots(cs) <= cs
  {
    if cs != [] && cs[|cs| - 1] == "." {
      TrimDotsIsPrefix(cs[..|cs| - 1]);
    }
  }

  /** A path that ends in a pop had a longer stack before it. */
  lemma PoppedFrom(rooted: bool, cs: seq<string>)
    requires EndsInPop(rooted, cs)
    ensures var k := |TrimDots(cs)| - 1;
            && 0 <= k <= |cs|
            && var stack := Run(rooted, [], cs[..k]);
               |stack| > 1 && Run(rooted, [], cs) == stack[..|stack| - 1]
  {
    TrimDotsIsPrefix(cs);
    DotsDoNothing(rooted, cs);
    var k := |TrimDots(cs)| - 1;
    assert TrimDots(cs)[..k] == cs[..k];
  }

  lemma PopShortens(rooted: bool, stack: Path)
    requires AreSegments(stack) && |stack| > 1
    ensures |Render(rooted, stack[..|stack| - 1])| + 2 <= |Render(rooted, stack)|
  {
    RenderLength(rooted, stack);
    RenderLength(rooted, stack[..|stack| - 1]);
  }

  /** What cleans within a buffer leaves room for the NUL, trailing separator included. */
  lemma CleanFitsLength(s: string, n: nat)
    requires CleanFits(s, n)
    ensures |Clean(s)| < n
  {
    hide Run, Parse, Render, EndsInPop, TrimDots;
    var rooted, cs := IsAbsolute(s), Parse(s);
    assert Within(rooted, Run(rooted, [], cs[..|cs|]), n) && cs[..|cs|] == cs;
    if EndsInPop(rooted, cs) {
      PoppedFrom(rooted, cs);
      var k := |TrimDots(cs)| - 1;
      assert Within(rooted, Run(rooted, [], cs[..k]), n);
      RunSettled(rooted, [], cs[..k]);
      SettledSegments(rooted, Run(rooted, [], cs[..k]));
      PopShortens(rooted, Run(rooted, [], cs[..k]));
    }
  }

  lemma {:induction false} DotsDoNothing(rooted: bool, cs: seq<string>)
    ensures Run(rooted, [], TrimDots(cs)) == Run(rooted, [], cs)
  {
    if cs != [] && cs[|cs| - 1] == "." {
      DotsDoNothing(rooted, cs[..|cs| - 1]);
    }
  }

  // ---------------------------------------------------------------- two-stage resolution

  predicate HasEffectiveComponent(cs: seq<string>) {
    TrimDots(cs) != []
  }

  lemma {:induction false} TrimDotsAppend(a: seq<string>, b: seq<string>)
    ensures TrimDots(a + b) == if HasEffectiveComponent(b) then a + TrimDots(b) else TrimDots(a)
  {
    if b == [] {
      assert a + b == a;
    } else {
      var m := |b| - 1;
      assert (a + b)[..|a + b| - 1] == a + b[..m];
      TrimDotsAppend(a, b[..m]);
    }
  }

  lemma {:induction false} NoEffectRuns(rooted: bool, stack: Path, cs: seq<string>)
    requires !HasEffectiveComponent(cs)
    ensures Run(rooted, stack, cs) == stack
  {
    if cs != [] {
      NoEffectRuns(rooted, stack, cs[..|cs| - 1]);
    }
  }

  lemma EndsInPopAppend(rooted: bool, a: seq<string>, b: seq<string>)
    ensures EndsInPop(rooted, a + b) <==>
            if HasEffectiveComponent(b)
            then var effective := TrimDots(b);
                 && Run(rooted, Run(rooted, [], a), b) != []
                 && effective[|effective| - 1] == ".."
                 && Run(rooted, Run(rooted, [], a), effective[..|effective| - 1]) != []
            else EndsInPop(rooted, a)
  {
    hide Run;
    TrimDotsAppend(a, b);
    RunAppend(rooted, [], a, b);
    if HasEffectiveComponent(b) {
      var effective := TrimDots(b);
      assert (a + effective)[..|a + effective| - 1] == a + effective[..|effective| - 1];
      RunAppend(rooted, [], a, effective[..|effective| - 1]);
    } else {
      NoEffectRuns(rooted, Run(rooted, [], a), b);
    }
  }

  /**
    Cleaning the base first and then base/path agrees with cleaning base/path once: always on
    components, and byte for byte exactly when the path has an effective component or the base
    does not end in a pop.
   */
  lemma TwoStages(base: string, path: string)
    requires IsAbsolute(base)
    ensures ComponentsOf(Clean(base) + "/" + path) == ComponentsOf(base + "/" + path)
                                                   == Run(true, ComponentsOf(base), Parse(path))
    ensures Clean(Clean(base) + "/" + path) == Clean(base + "/" + path) <==>
            HasEffectiveComponent(Parse(path)) || !EndsInPop(true, Parse(base))
  {
    CleanKeepsComponents(base);
    ParseJoined(base, path);
    ParseJoined(Clean(base), path);
    RunAppend(true, [], Parse(base), Parse(path));
    RunAppend(true, [], Parse(Clean(base)), Parse(path));
    EndsInPopAppend(true, Parse(base), Parse(path));
    EndsInPopAppend(true, Parse(Clean(base)), Parse(path));
  }

  // ---------------------------------------------------------------- cleaned strings

  /** The shape every cleaned absolute path has. */
  predicate Cleaned(p: string) {
    && IsPath(Parse(p))
    && (p == Render(true, Parse(p)) || (Parse(p) != [] && p == Slashed(Parse(p)) + "/"))
  }

  /** A cleaned path that is neither the root nor left with a trailing separator. */
  predicate Canonical(p: string) {
    Cleaned(p) && p != "" && p[|p| - 1] != '/'
  }

  lemma CleanIsCleaned(s: string)
    requires IsAbsolute(s)
    ensures Cleaned(Clean(s))
  {
    CleanKeepsComponents(s);
  }

  lemma PathSegments(p: Path)
    requires IsPath(p)
    ensures AreSegments(p)
  {
  }

  lemma RenderIsCleaned(p: Path)
    requires IsPath(p)
    ensures Cleaned(Render(true, p)) && Parse(Render(true, p)) == p
    ensures Canonical(Render(true, p)) <==> p != []
  {
    PathSegments(p);
    ParseRender(true, p);
    if p != [] {
      Cleaner.SlashedEnd(p);
    }
  }

  /** Canonical means rendered from at least one component. */
  lemma CanonicalMeans(p: string)
    requires Cleaned(p)
    ensures Canonical(p) <==> Parse(p) != [] && p == Slashed(Parse(p))
    ensures IsAbsolute(p) && |p| <= |Slashed(Parse(p))| + 1
  {
    PathSegments(Parse(p));
    if Parse(p) != [] {
      Cleaner.SlashedEnd(Parse(p));
    }
  }

  /** Which configured values are stored canonically: those that do not end in a pop and do not come to the root. */
  lemma StoredCanonically(s: string)
    requires IsAbsolute(s)
    ensures Canonical(Clean(s)) <==> ComponentsOf(s) != [] && !EndsInPop(true, Parse(s))
  {
    CleanIsCleaned(s);
    CleanKeepsComponents(s);
    CanonicalMeans(Clean(s));
  }
}
