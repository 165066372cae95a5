/**
  One relative argument walked from two directories, the kernel's and the program's: when the
  two walks end in one place.
 */
module Walks {
  import opened Components
  import opened Mapping
  import opened Locations

  // ---------------------------------------------------------------- a walk as a climb and a descent

  /** What a relative walk amounts to: climb up levels, then descend along the names in down. */
  datatype Walk = Walk(up: nat, down: Path)

  function WalkOf(cs: seq<string>): Walk {
    if cs == [] then Walk(0, [])
    else
      var w, c := WalkOf(cs[..|cs| - 1]), cs[|cs| - 1];
      if c == "." then w
      else if c != ".." then Walk(w.up, w.down + [c])
      else if w.down == [] then Walk(w.up + 1, [])
      else Walk(w.up, w.down[..|w.down| - 1])
  }

  /** Climb k levels; above the root there is nothing to climb. */
  function Drop(p: Path, k: nat): Path {
    if k <= |p| then p[..|p| - k] else []
  }

  /** Every walk from every directory is its climb followed by its descent. */
  lemma {:induction false} WalkRuns(base: Path, cs: seq<string>)
    ensures Run(true, base, cs) == Drop(base, WalkOf(cs).up) + WalkOf(cs).down
  {
    if cs == [] {
      assert Drop(base, 0) + [] == base;
    } else {
      var m := |cs| - 1;
      WalkRuns(base, cs[..m]);
      var w, c := WalkOf(cs[..m]), cs[m];
      var stack := Drop(base, w.up) + w.down;
      if c == ".." && w.down != [] {
        assert stack[..|stack| - 1] == Drop(base, w.up) + w.down[..|w.down| - 1];
      } else if c == ".." {
        assert stack == Drop(base, w.up);
        assert Drop(base, w.up + 1) + [] == Drop(base, w.up + 1);
      } else if c != "." {
        assert stack + [c] == Drop(base, w.up) + (w.down + [c]);
      }
    }
  }

  // ---------------------------------------------------------------- the same walk from two roots

  /** Distinct roots in one directory. */
  predicate Siblings(a: Path, b: Path) {
    a != b && a != [] && b != [] && a[..|a| - 1] == b[..|b| - 1]
  }

  /**
    Climbing k levels above either root and descending leads to one place: the roots have met
    after k levels, or the k names climbed are the same and the descent takes them again.
   */
  predicate Rejoins(a: Path, b: Path, k: nat, down: Path) {
    || Drop(a, k) == Drop(b, k)
    || (k <= |a| && k <= |b| && a[|a| - k..] == b[|b| - k..] && a[|a| - k..] <= down)
  }

  lemma RejoinsIf(a: Path, b: Path, k: nat, down: Path)
    requires Separate(a, b) && Rejoins(a, b, k, down)
    ensures Redirect(a, b, Drop(a, k) + down) == Redirect(a, b, Drop(b, k) + down)
  {
    if Drop(a, k) != Drop(b, k) {
      var again := a[|a| - k..];
      var rest := down[k..];
      assert down == again + rest;
      assert Drop(a, k) + again == a && Drop(b, k) + again == b;
      assert Drop(a, k) + (again + rest) == a + rest;
      assert Drop(b, k) + (again + rest) == b + rest;
      hide Drop, Rejoins, Redirect;
      RedirectUnder(a, b, rest);
      RedirectOnce(a, b, a + rest);
    }
  }

  lemma RejoinsOnlyIf(a: Path, b: Path, k: nat, down: Path)
    requires Redirect(a, b, Drop(a, k) + down) == Redirect(a, b, Drop(b, k) + down)
    ensures Rejoins(a, b, k, down)
  {
    var p, q := Drop(a, k) + down, Drop(b, k) + down;
    if a <= p && a <= q {
      assert p == a + p[|a|..] && q == a + q[|a|..];
      SameHead(b, b, p[|a|..], q[|a|..]);
      SameHead(Drop(a, k), Drop(b, k), down, down);
    } else if a <= p {
      ReturnOnlyIf(a, b, k, down);
    } else if a <= q {
      NoReturnFromBelow(a, b, k, down);
    } else {
      SameHead(Drop(a, k), Drop(b, k), down, down);
    }
  }

  lemma SameHead(p: Path, q: Path, r: Path, s: Path)
    requires p + r == q + s && (|p| == |q| || |r| == |s|)
    ensures p == q && r == s
  {
    assert |p| == |q|;
    assert p == (p + r)[..|p|] && q == (q + s)[..|q|];
    assert r == (p + r)[|p|..] && s == (q + s)[|q|..];
  }

  lemma ReturnOnlyIf(a: Path, b: Path, k: nat, down: Path)
    requires a <= Drop(a, k) + down
    requires b + (Drop(a, k) + down)[|a|..] == Drop(b, k) + down
    ensures Rejoins(a, b, k, down)
  {
    var rest := (Drop(a, k) + down)[|a|..];
    assert Drop(a, k) + down == a + rest;
    if k <= |a| {
      var again := a[|a| - k..];
      assert a == Drop(a, k) + again;
      AppendAgain(Drop(a, k), again, rest, down);
      assert b + rest == Drop(b, k) + again + rest;
      SameHead(b, Drop(b, k) + again, rest, rest);
      assert b[|Drop(b, k)|..] == again;
    } else {
      AppendAgain([], a, rest, down);
      assert b + rest == Drop(b, k) + a + rest;
      SameHead(b, Drop(b, k) + a, rest, rest);
    }
  }

  lemma AppendAgain(p: Path, q: Path, rest: Path, down: Path)
    requires p + down == p + q + rest
    ensures down == q + rest
  {
    assert p + q + rest == p + (q + rest);
    SameHead(p, p, down, q + rest);
  }

  lemma NoReturnFromBelow(a: Path, b: Path, k: nat, down: Path)
    requires a <= Drop(b, k) + down
    requires b + (Drop(b, k) + down)[|a|..] == Drop(a, k) + down
    ensures Drop(a, k) == Drop(b, k)
  {
    var rest := (Drop(b, k) + down)[|a|..];
    assert Drop(b, k) + down == a + rest;
    assert |Drop(b, k)| + |down| == |a| + |rest| && |b| + |rest| == |Drop(a, k)| + |down|;
    if k <= |a| && k <= |b| {
      assert |a| == |b|;
      assert Drop(b, k) == (a + rest)[..|a| - k] == Drop(a, k);
    }
  }

  /** How far a walk from a directory at or under root climbs above root. */
  function ClimbsAbove(root: Path, p: Path, up: nat): nat
    requires root <= p
  {
    if up <= |p| - |root| then 0 else up - (|p| - |root|)
  }

  /** The argument leads the kernel and the program to one place. */
  predicate Follows(a: Path, b: Path, virt: Path, arg: string) {
    IsAbsolute(arg) || !(a <= virt) ||
    var w := WalkOf(Parse(arg));
    Rejoins(a, b, ClimbsAbove(a, virt, w.up), w.down)
  }

  /** A walk from under a root: it ends under the root, or climbs the root itself. */
  lemma ResolveFrom(root: Path, rest: Path, arg: string)
    requires !IsAbsolute(arg)
    ensures var w := WalkOf(Parse(arg));
            Resolve(root + rest, arg) ==
            if w.up <= |rest| then root + (rest[..|rest| - w.up] + w.down)
            else Drop(root, w.up - |rest|) + w.down
  {
    var w := WalkOf(Parse(arg));
    WalkRuns(root + rest, Parse(arg));
    hide Run, Parse, WalkOf;
    if w.up <= |rest| {
      assert (root + rest)[..|root + rest| - w.up] == root + rest[..|rest| - w.up];
    } else if w.up - |rest| <= |root| {
      assert (root + rest)[..|root + rest| - w.up] == root[..|root| - (w.up - |rest|)];
    }
  }

  lemma NoClimbRejoins(a: Path, b: Path, down: Path)
    ensures Rejoins(a, b, 0, down)
  {
    assert a[|a| - 0..] == [] && b[|b| - 0..] == [];
  }

  /**
    Whether the two machines come to one place is decided by the walk alone: exactly the followed
    arguments do.
   */
  lemma FollowsExactly(a: Path, b: Path, virt: Path, arg: string)
    requires Separate(a, b)
    ensures Follows(a, b, virt, arg) <==>
            Redirect(a, b, Resolve(Redirect(a, b, virt), arg)) == Redirect(a, b, Resolve(virt, arg))
  {
    if !IsAbsolute(arg) && a <= virt {
      var rest := virt[|a|..];
      assert virt == a + rest;
      FollowsUnder(a, b, rest, arg);
    }
  }

  lemma FollowsUnder(a: Path, b: Path, rest: Path, arg: string)
    requires Separate(a, b) && !IsAbsolute(arg)
    ensures var w := WalkOf(Parse(arg));
            Rejoins(a, b, ClimbsAbove(a, a + rest, w.up), w.down) <==>
            Redirect(a, b, Resolve(b + rest, arg)) == Redirect(a, b, Resolve(a + rest, arg))
  {
    hide Resolve, Parse, WalkOf, Rejoins, Redirect, Drop, Separate, IsAbsolute;
    var w := WalkOf(Parse(arg));
    ResolveFrom(a, rest, arg);
    ResolveFrom(b, rest, arg);
    if w.up <= |rest| {
      var inner := rest[..|rest| - w.up] + w.down;
      RedirectUnder(a, b, inner);
      RedirectOnce(a, b, a + inner);
      NoClimbRejoins(a, b, w.down);
    } else {
      FollowsAbove(a, b, w.up - |rest|, w.down);
    }
  }

  lemma FollowsAbove(a: Path, b: Path, k: nat, down: Path)
    requires Separate(a, b)
    ensures Rejoins(a, b, k, down) <==>
            Redirect(a, b, Drop(a, k) + down) == Redirect(a, b, Drop(b, k) + down)
  {
    if Rejoins(a, b, k, down) {
      RejoinsIf(a, b, k, down);
    } else if Redirect(a, b, Drop(a, k) + down) == Redirect(a, b, Drop(b, k) + down) {
      RejoinsOnlyIf(a, b, k, down);
    }
  }

  /** Every argument from every directory is followed exactly when the roots share their parent. */
  lemma FollowsEverything(a: Path, b: Path)
    requires Separate(a, b) && IsPath(a)
    ensures (forall virt, arg | IsPath(virt) :: Follows(a, b, virt, arg)) <==> Siblings(a, b)
  {
    if Siblings(a, b) {
      forall virt, arg | IsPath(virt) ensures Follows(a, b, virt, arg) {
        if !IsAbsolute(arg) && a <= virt {
          SiblingsRejoin(a, b, ClimbsAbove(a, virt, WalkOf(Parse(arg)).up), WalkOf(Parse(arg)).down);
        }
      }
    } else {
      ParseSegment("..");
      assert WalkOf([".."][..0]) == Walk(0, []);
      assert WalkOf([".."]) == Walk(1, []);
      assert a != [] && b != [];
      assert |a[|a| - 1..]| == 1;
      assert !Rejoins(a, b, 1, []);
      assert !Follows(a, b, a, "..");
    }
  }

  lemma SiblingsRejoin(a: Path, b: Path, k: nat, down: Path)
    requires Siblings(a, b)
    ensures Rejoins(a, b, k, down)
  {
    if k == 0 {
      assert a[|a|..] == [] && b[|b|..] == [];
    } else {
      assert k <= |a| ==> Drop(a, k) == a[..|a| - 1][..|a| - k];
      assert k <= |b| ==> Drop(b, k) == b[..|b| - 1][..|b| - k];
    }
  }

  /**
    A relative path that reaches the kernel unchanged, as `open`, `stat` and the other absolute-only
    calls hand it on, leads where the program means exactly when it is followed and does not
    lead into the real source tree.
   */
  lemma UntouchedExactly(a: Path, b: Path, virt: Path, arg: string)
    requires Separate(a, b) && !IsAbsolute(arg)
    ensures Resolve(Redirect(a, b, virt), arg) == Redirect(a, b, Resolve(virt, arg)) <==>
            Follows(a, b, virt, arg) && !(a <= Resolve(Redirect(a, b, virt), arg))
  {
    FollowsExactly(a, b, virt, arg);
    RedirectOnce(a, b, Resolve(virt, arg));
  }

  // ---------------------------------------------------------------- walks that stay under one root

  /** The walk never leaves the tree under root. */
  predicate StaysUnder(root: Path, stack: Path, cs: seq<string>) {
    forall k | 0 <= k <= |cs| :: root <= Run(true, stack, cs[..k])
  }

  /**
    The frame law: a walk that stays under one root leaves the same remainder when it starts
    at the same place under another root.
   */
  lemma {:induction false} FrameLaw(a: Path, b: Path, rest: Path, cs: seq<string>)
    requires a != [] && StaysUnder(a, a + rest, cs)
    ensures a <= Run(true, a + rest, cs)
    ensures Run(true, b + rest, cs) == b + Run(true, a + rest, cs)[|a|..]
    ensures Run(true, b + rest, cs) == Redirect(a, b, Run(true, a + rest, cs))
  {
    assert cs[..|cs|] == cs;
    assert a <= Run(true, a + rest, cs[..|cs|]);
    if cs == [] {
      assert (a + rest)[|a|..] == rest;
    } else {
      var m := |cs| - 1;
      forall k | 0 <= k <= m ensures a <= Run(true, a + rest, cs[..m][..k]) {
        assert cs[..m][..k] == cs[..k];
      }
      FrameLaw(a, b, rest, cs[..m]);
      SameStep(a, b, Run(true, a + rest, cs[..m]), Run(true, b + rest, cs[..m]), cs[m]);
    }
  }

  lemma SameStep(a: Path, b: Path, p: Path, q: Path, c: string)
    requires a != [] && a <= p && q == b + p[|a|..] && a <= Step(true, p, c)
    ensures Step(true, q, c) == b + Step(true, p, c)[|a|..]
  {
  }
}
