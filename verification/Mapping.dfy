/**
  The prefix mapping, twice: on bytes as the interposer performs it, and on component lists
  as its users read it.
 */
module Mapping {
  import opened CStrings
  import opened Components
  import opened CleanerLaws

  // ---------------------------------------------------------------- on bytes

  /** `path_matches_prefix`: the bytes agree and the path ends there or goes on with a separator. */
  predicate Matches(path: string, prefix: string) {
    && |prefix| <= |path| && path[..|prefix|] == prefix
    && (|path| == |prefix| || path[|prefix|] == '/')
  }

  /** Replace a matching prefix a by b, if the result and its NUL fit in n bytes. */
  function Swap(path: string, a: string, b: string, n: nat): Option<string> {
    if Matches(path, a) && |b| + (|path| - |a|) + 1 <= n then Some(b + path[|a|..]) else None
  }

  /** Swapping back restores the path byte for byte, for any two prefixes. */
  lemma SwapInverse(path: string, a: string, b: string, n: nat, m: nat)
    requires Swap(path, a, b, n).Some? && |path| < m
    ensures Swap(Swap(path, a, b, n).value, b, a, m) == Some(path)
  {
    var q := Swap(path, a, b, n).value;
    assert q[..|b|] == b && q[|b|..] == path[|a|..];
    assert a + path[|a|..] == path;
  }

  // ---------------------------------------------------------------- on components

  /** The mapping on locations: root a replaced by root b. */
  function Redirect(a: Path, b: Path, p: Path): Path {
    if a <= p then b + p[|a|..] else p
  }

  /** Neither root lies inside the other. */
  predicate Separate(a: Path, b: Path) {
    !(a <= b) && !(b <= a)
  }

  lemma RedirectIsPath(a: Path, b: Path, p: Path)
    requires IsPath(b) && IsPath(p)
    ensures IsPath(Redirect(a, b, p))
  {
  }

  lemma RedirectUnder(a: Path, b: Path, rest: Path)
    ensures Redirect(a, b, a + rest) == b + rest
  {
  }

  /** Two prefixes of one path are comparable. */
  lemma Comparable(a: Path, b: Path, p: Path)
    requires a <= p && b <= p
    ensures a <= b || b <= a
  {
  }

  lemma UnderOne(a: Path, b: Path, p: Path)
    requires Separate(a, b) && a <= p
    ensures !(b <= p)
  {
  }

  /** What was redirected is clear of the source root, so nothing is redirected twice. */
  lemma RedirectOnce(a: Path, b: Path, p: Path)
    requires Separate(a, b)
    ensures !(a <= Redirect(a, b, p))
    ensures Redirect(a, b, Redirect(a, b, p)) == Redirect(a, b, p)
  {
  }

  /** Applying the mapping twice is the same as once exactly when the roots are equal or separate. */
  lemma NoDoubleMapping(a: Path, b: Path)
    ensures (forall p: Path :: Redirect(a, b, Redirect(a, b, p)) == Redirect(a, b, p)) <==> a == b || Separate(a, b)
  {
    if a == b {
      forall p: Path ensures Redirect(a, b, Redirect(a, b, p)) == Redirect(a, b, p) {
        assert a <= p ==> a + p[|a|..] == p;
      }
    } else if Separate(a, b) {
      forall p: Path ensures Redirect(a, b, Redirect(a, b, p)) == Redirect(a, b, p) {
        RedirectOnce(a, b, p);
      }
    } else if a <= b {
      RedirectUnder(a, b, []);
      assert a + [] == a && b + [] == b;
      assert |Redirect(a, b, b)| > |b|;
      assert Redirect(a, b, Redirect(a, b, a)) != Redirect(a, b, a);
    } else {
      var s := a[|b|..];
      assert b + s == a;
      RedirectUnder(a, b, s);
      RedirectUnder(a, b, []);
      assert a + [] == a && b + [] == b;
      assert Redirect(a, b, Redirect(a, b, a + s)) != Redirect(a, b, a + s);
    }
  }

  /** Forward and reverse: two names lead to one place exactly when they have one alias. */
  lemma Aliases(a: Path, b: Path, p: Path)
    requires Separate(a, b)
    ensures Redirect(b, a, Redirect(a, b, p)) == Redirect(b, a, p)
    ensures Redirect(a, b, Redirect(b, a, p)) == Redirect(a, b, p)
    ensures !(b <= Redirect(b, a, p)) && !(a <= Redirect(a, b, p))
  {
  }

  lemma SamePlace(a: Path, b: Path, p: Path, q: Path)
    requires Separate(a, b)
    ensures Redirect(a, b, p) == Redirect(a, b, q) <==> Redirect(b, a, p) == Redirect(b, a, q)
  {
    Aliases(a, b, p);
    Aliases(a, b, q);
  }

  // ---------------------------------------------------------------- bytes against components

  /** A path under a prefix parses into the prefix's components and the rest. */
  lemma MatchSplits(path: string, prefix: string)
    requires Matches(path, prefix)
    ensures var rest := path[|prefix|..];
            && (rest != "" ==> rest[0] == '/') && path == prefix + rest
            && Parse(path) == Parse(prefix) + Parse(rest)
  {
    var rest := path[|prefix|..];
    assert path == prefix + rest;
    ParseAppend(prefix, rest);
  }

  lemma CleanedStart(path: string)
    requires Cleaned(path)
    ensures |Slashed(Parse(path))| <= |path| <= |Slashed(Parse(path))| + 1
    ensures path[..|Slashed(Parse(path))|] == Slashed(Parse(path))
  {
  }

  /** A cleaned path extends the rendering of each of its component prefixes. */
  lemma PrefixMatches(path: string, f: Path)
    requires Cleaned(path) && f <= Parse(path) && f != []
    ensures Matches(path, Slashed(f))
  {
    CleanedStart(path);
    var g := Parse(path)[|f|..];
    assert Parse(path) == f + g;
    SlashedAppend(f, g);
    if g == [] {
      assert path == Slashed(f) || path == Slashed(f) + "/";
    } else {
      SlashedStart(g);
    }
  }

  /** For a canonical prefix the byte test is the component prefix relation. */
  lemma MatchIsComponentPrefix(path: string, prefix: string)
    requires Cleaned(path) && Canonical(prefix)
    ensures Matches(path, prefix) <==> Parse(prefix) <= Parse(path)
  {
    CanonicalMeans(prefix);
    if Matches(path, prefix) {
      MatchSplits(path, prefix);
    } else if Parse(prefix) <= Parse(path) {
      PrefixMatches(path, Parse(prefix));
    }
  }

  /** A cleaned path has no empty segment. */
  lemma NoDoubleSeparator(path: string, f: Path, rest: string)
    requires Cleaned(path) && path == Slashed(f) + "/" + rest && IsPath(f)
    ensures rest != "" ==> rest[0] != '/'
  {
    var g := Parse(rest);
    PathSegments(f);
    ParseSlashed(f);
    ParseJoined(Slashed(f), rest);
    CanonicalMeans(path);
    SlashedAppend(f, g);
    if rest != "" {
      hide Cleaned, Canonical, Slashed, Parse;
      CleanedStart(path);
      SlashedHead(g);
      assert path[|Slashed(f)| + 1] == Slashed(g)[1];
    }
  }

  /** A prefix left with a trailing separator, and the root, match nothing but themselves. */
  lemma NonCanonicalMatchesItself(path: string, prefix: string)
    requires Cleaned(path) && Cleaned(prefix) && !Canonical(prefix)
    ensures Matches(path, prefix) <==> path == prefix
  {
    var f := Parse(prefix);
    assert prefix == Slashed(f) + "/";
    if Matches(path, prefix) {
      MatchSplits(path, prefix);
      var rest := path[|prefix|..];
      assert path == Slashed(f) + "/" + rest;
      NoDoubleSeparator(path, f, rest);
    }
  }

  /** The byte test is component prefix on every cleaned path exactly when the prefix is canonical. */
  lemma PrefixTestExact(prefix: string)
    requires Cleaned(prefix)
    ensures (forall path | Cleaned(path) :: Matches(path, prefix) <==> Parse(prefix) <= Parse(path)) <==>
            Canonical(prefix)
  {
    if Canonical(prefix) {
      forall path | Cleaned(path) ensures Matches(path, prefix) <==> Parse(prefix) <= Parse(path) {
        MatchIsComponentPrefix(path, prefix);
      }
    } else {
      var child := Parse(prefix) + ["x"];
      assert IsName("x");
      RenderIsCleaned(child);
      NonCanonicalMatchesItself(Render(true, child), prefix);
    }
  }

  /** A swap that happens maps the components, whatever form the new prefix has. */
  lemma SwapMapsComponents(path: string, a: string, b: string, n: nat)
    requires Cleaned(path) && Canonical(a)
    ensures Swap(path, a, b, n).Some? <==>
            Parse(a) <= Parse(path) && |b| + (|path| - |a|) + 1 <= n
    ensures Swap(path, a, b, n).Some? ==>
            Parse(Swap(path, a, b, n).value) == Redirect(Parse(a), Parse(b), Parse(path))
  {
    MatchIsComponentPrefix(path, a);
    if Matches(path, a) {
      MatchSplits(path, a);
      var rest := path[|a|..];
      ParseAppend(b, rest);
      RedirectUnder(Parse(a), Parse(b), Parse(rest));
    }
  }
}
