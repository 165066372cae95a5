/**
  The tree the program sees, and exactly when an operation on the kernel's tree looks through the
  mapping like the same operation on that tree.
 */
module Views {
  import opened CStrings
  import opened Components
  import opened Mapping
  import opened FileStore

  /** The store through the mapping: the destination's content at the source, and nothing at the destination. */
  function View(a: Path, b: Path, st: Store): Store {
    map p | p in (set x | x in st && !(a <= x) :: Redirect(b, a, x)) && Redirect(a, b, p) in st :: st[Redirect(a, b, p)]
  }

  lemma ViewGet(a: Path, b: Path, st: Store, p: Path)
    requires Separate(a, b)
    ensures Get(View(a, b, st), p) == if b <= p then None else Get(st, Redirect(a, b, p))
  {
    if b <= p {
      forall x | x in st && !(a <= x) ensures Redirect(b, a, x) != p {
        RedirectOnce(b, a, x);
      }
    } else {
      var x := Redirect(a, b, p);
      Aliases(a, b, p);
      assert Redirect(b, a, x) == p;
    }
  }

  /** Any name's lookup is the lookup of its alias in the view. */
  lemma LookupByAlias(a: Path, b: Path, st: Store, q: Path)
    requires Separate(a, b)
    ensures Get(st, Redirect(a, b, q)) == Get(View(a, b, st), Redirect(b, a, q))
  {
    Aliases(a, b, q);
    ViewGet(a, b, st, Redirect(b, a, q));
  }

  /** A location above neither root. */
  predicate Clear(a: Path, b: Path, x: Path) {
    !(x < a) && !(x < b)
  }

  /** Below a clear location the mapping is a translation. */
  lemma RedirectBelow(a: Path, b: Path, x: Path, s: Path)
    requires Separate(a, b) && Clear(a, b, x) && !(b <= x)
    ensures !(b <= x + s) && Redirect(a, b, x + s) == Redirect(a, b, x) + s
  {
  }

  /** Between clear locations the mapping keeps and reflects the order of the tree. */
  lemma RedirectOrder(a: Path, b: Path, x: Path, p: Path)
    requires Separate(a, b) && Clear(a, b, x) && !(b <= x) && !(b <= p)
    ensures x <= p <==> Redirect(a, b, x) <= Redirect(a, b, p)
    ensures x <= p ==> Redirect(a, b, p) == Redirect(a, b, x) + p[|x|..]
  {
    if x <= p {
      assert x + p[|x|..] == p;
      RedirectBelow(a, b, x, p[|x|..]);
    }
    if Redirect(a, b, x) <= Redirect(a, b, p) {
      var s := Redirect(a, b, p)[|Redirect(a, b, x)|..];
      assert Redirect(a, b, p) == Redirect(a, b, x) + s;
      RedirectBelow(a, b, x, s);
      SamePlace(a, b, p, x + s);
      Aliases(a, b, p);
      Aliases(a, b, x + s);
      assert Redirect(b, a, p) == p && Redirect(b, a, x + s) == x + s;
    }
  }

  lemma HasBelowView(a: Path, b: Path, st: Store, x: Path)
    requires Separate(a, b) && Clear(a, b, x) && !(b <= x)
    ensures HasBelow(st, Redirect(a, b, x)) <==> HasBelow(View(a, b, st), x)
  {
    var x' := Redirect(a, b, x);
    if HasBelow(View(a, b, st), x) {
      var p :| p in View(a, b, st) && x < p;
      ViewGet(a, b, st, p);
      RedirectOrder(a, b, x, p);
      assert Redirect(a, b, p) in st && x' < Redirect(a, b, p);
    }
    if HasBelow(st, x') {
      var y :| y in st && x' < y;
      var s := y[|x'|..];
      assert y == x' + s;
      RedirectBelow(a, b, x, s);
      ViewGet(a, b, st, x + s);
      assert x + s in View(a, b, st) && x < x + s;
    }
  }

  /** Distinct visible names are distinct places. */
  lemma VisibleDistinct(a: Path, b: Path, p: Path, q: Path)
    requires Separate(a, b) && !(b <= p) && !(b <= q)
    ensures Redirect(a, b, p) == Redirect(a, b, q) <==> p == q
  {
    SamePlace(a, b, p, q);
  }

  lemma CanRenameView(a: Path, b: Path, st: Store, x: Path, y: Path)
    requires Separate(a, b) && Clear(a, b, x) && Clear(a, b, y) && !(b <= x) && !(b <= y)
    ensures CanRename(st, Redirect(a, b, x), Redirect(a, b, y)) <==> CanRename(View(a, b, st), x, y)
  {
    ViewGet(a, b, st, x);
    ViewGet(a, b, st, y);
    RedirectOrder(a, b, x, y);
    HasBelowView(a, b, st, y);
  }

  // ---------------------------------------------------------------- faithful operations

  /** A rename away from above a root takes along what the program sees there, and leaves nothing it should take. */
  predicate LeavesAlike(a: Path, b: Path, st: Store, x: Path) {
    && (x < a ==> Bare(st, a) && Bare(st, b))
    && (x < b ==> Bare(st, b))
  }

  /** A rename onto a place above a root brings nothing to that root. */
  predicate LandsAlike(a: Path, b: Path, st: Store, source: Path, y: Path) {
    && (y < a ==> Bare(st, source + a[|y|..]))
    && (y < b ==> Bare(st, source + b[|y|..]))
  }

  /**
    The operation, on names the program sees, does through the mapping what it would do on the tree the
    program sees: an emptied directory is empty to both, and a rename is carried out for both or
    neither and moves no more and no less than the program sees.
   */
  predicate Faithful(a: Path, b: Path, st: Store, op: Op) {
    match op
    case Remove(at, directory) =>
      directory && Get(st, Redirect(a, b, at)) == Some(Directory) ==>
        (HasBelow(st, Redirect(a, b, at)) <==> HasBelow(View(a, b, st), at))
    case Rename(x, y) =>
      var x', y' := Redirect(a, b, x), Redirect(a, b, y);
      && (CanRename(st, x', y') <==> CanRename(View(a, b, st), x, y))
      && (CanRename(st, x', y') ==> LeavesAlike(a, b, st, x) && LandsAlike(a, b, st, x', y))
    case _ => true
  }

  /** Operations that look or move below a location do not do so above a root. */
  predicate ClearOp(a: Path, b: Path, op: Op) {
    match op
    case Remove(at, directory) => directory ==> Clear(a, b, at)
    case Rename(x, y) => Clear(a, b, x) && Clear(a, b, y)
    case _ => true
  }

  /** Away from the ancestors of the roots every operation is faithful in every store. */
  lemma ClearIsFaithful(a: Path, b: Path, st: Store, op: Op)
    requires Separate(a, b) && ClearOp(a, b, op) && Redirected(b, a, op) == op
    ensures Faithful(a, b, st, op)
  {
    match op
    case Remove(at, directory) =>
      Aliases(a, b, at);
      if directory {
        HasBelowView(a, b, st, at);
      }
    case Rename(x, y) =>
      Aliases(a, b, x);
      Aliases(a, b, y);
      CanRenameView(a, b, st, x, y);
    case _ =>
  }

  // ---------------------------------------------------------------- faithful, by the kernel's tree alone

  predicate HasBelowOutside(a: Path, b: Path, st: Store, p: Path) {
    exists q | q in st :: p < q && !(a <= q) && !(b <= q)
  }

  /** The program sees something below p. */
  predicate SeesBelow(a: Path, b: Path, st: Store, p: Path) {
    if p < a || p < b then HasBelowOutside(a, b, st, p) || (p < a && !Bare(st, b))
    else HasBelow(st, Redirect(a, b, p))
  }

  lemma HasBelowAbove(a: Path, b: Path, st: Store, p: Path)
    requires Separate(a, b) && (p < a || p < b)
    ensures HasBelow(st, p) <==>
            HasBelowOutside(a, b, st, p) || (p < a && !Bare(st, a)) || (p < b && !Bare(st, b))
  {
    if HasBelow(st, p) && !HasBelowOutside(a, b, st, p) {
      var q :| q in st && p < q;
      if a <= q {
        Comparable(p, a, q);
      } else {
        Comparable(p, b, q);
      }
    }
    if p < a && !Bare(st, a) {
      var q :| q in st && a <= q;
      assert p < q;
    }
    if p < b && !Bare(st, b) {
      var q :| q in st && b <= q;
      assert p < q;
    }
  }

  lemma SeesBelowExactly(a: Path, b: Path, st: Store, p: Path)
    requires Separate(a, b) && !(b <= p)
    ensures SeesBelow(a, b, st, p) <==> HasBelow(View(a, b, st), p)
  {
    if Clear(a, b, p) {
      HasBelowView(a, b, st, p);
    } else {
      if SeesBelow(a, b, st, p) {
        SeenBelowIf(a, b, st, p);
      }
      if HasBelow(View(a, b, st), p) {
        SeenBelowOnlyIf(a, b, st, p);
      }
    }
  }

  lemma SeenBelowIf(a: Path, b: Path, st: Store, p: Path)
    requires Separate(a, b) && (p < a || p < b) && SeesBelow(a, b, st, p)
    ensures HasBelow(View(a, b, st), p)
  {
    if HasBelowOutside(a, b, st, p) {
      var q :| q in st && p < q && !(a <= q) && !(b <= q);
      ViewGet(a, b, st, q);
      assert q in View(a, b, st);
    } else {
      var q :| q in st && b <= q;
      var r := q[|b|..];
      assert q == b + r;
      RedirectUnder(a, b, r);
      UnderOne(a, b, a + r);
      ViewGet(a, b, st, a + r);
      assert a + r in View(a, b, st) && p < a + r;
    }
  }

  lemma SeenBelowOnlyIf(a: Path, b: Path, st: Store, p: Path)
    requires Separate(a, b) && (p < a || p < b) && HasBelow(View(a, b, st), p)
    ensures SeesBelow(a, b, st, p)
  {
    var q :| q in View(a, b, st) && p < q;
    ViewGet(a, b, st, q);
    if a <= q {
      assert b <= Redirect(a, b, q) && Redirect(a, b, q) in st;
      NotOnRoot(a, p, q[|a|..]);
      assert a + q[|a|..] == q;
    } else {
      assert q in st;
    }
  }

  /**
    Faithful in terms of the kernel's tree and names alone: an ancestor of a root that is removed has
    something below it outside both roots, or what is really below the roots and what the program
    sees there are both something or both nothing; a rename meets the same obstacles on both sides.
   */
  predicate FaithfulOnHost(a: Path, b: Path, st: Store, op: Op) {
    match op
    case Remove(at, directory) =>
      directory && (at < a || at < b) && Get(st, at) == Some(Directory) ==>
        || HasBelowOutside(a, b, st, at)
        || ((at < a && !Bare(st, a)) || (at < b && !Bare(st, b)) <==> at < a && !Bare(st, b))
    case Rename(x, y) =>
      var x', y' := Redirect(a, b, x), Redirect(a, b, y);
      && (Replaceable(st, x', y') ==>
            (!(x' <= y') && !HasBelow(st, y') <==> !(x <= y) && !SeesBelow(a, b, st, y)))
      && (CanRename(st, x', y') ==> LeavesAlike(a, b, st, x) && LandsAlike(a, b, st, x', y))
    case _ => true
  }

  lemma FaithfulByHost(a: Path, b: Path, st: Store, op: Op)
    requires Separate(a, b) && Redirected(b, a, op) == op
    ensures Faithful(a, b, st, op) <==> FaithfulOnHost(a, b, st, op)
  {
    match op
    case Remove(at, directory) =>
      Aliases(a, b, at);
      RemovalByHost(a, b, st, at);
    case Rename(x, y) =>
      Aliases(a, b, x);
      Aliases(a, b, y);
      hide *;
      RenameByHost(a, b, st, x, y);
    case _ =>
  }

  lemma RenameByHost(a: Path, b: Path, st: Store, x: Path, y: Path)
    requires Separate(a, b) && !(b <= x) && !(b <= y)
    ensures Faithful(a, b, st, Rename(x, y)) <==> FaithfulOnHost(a, b, st, Rename(x, y))
  {
    SeenRename(a, b, st, x, y);
    hide View, HasBelow, SeesBelow, Redirect, LeavesAlike, LandsAlike, Separate;
  }

  /** The program sees a rename that can be carried out, by the kernel's tree alone. */
  lemma SeenRename(a: Path, b: Path, st: Store, x: Path, y: Path)
    requires Separate(a, b) && !(b <= x) && !(b <= y)
    ensures CanRename(View(a, b, st), x, y) <==>
            Replaceable(st, Redirect(a, b, x), Redirect(a, b, y)) && !(x <= y) && !SeesBelow(a, b, st, y)
  {
    ViewGet(a, b, st, x);
    ViewGet(a, b, st, y);
    SeesBelowExactly(a, b, st, y);
    hide View, HasBelow, SeesBelow, Redirect, Separate;
  }

  /** When a directory is empty to the kernel and to the program alike. */
  lemma RemovalByHost(a: Path, b: Path, st: Store, at: Path)
    requires Separate(a, b) && !(b <= at)
    ensures (HasBelow(st, Redirect(a, b, at)) <==> HasBelow(View(a, b, st), at)) <==>
            (at < a || at < b ==>
               || HasBelowOutside(a, b, st, at)
               || ((at < a && !Bare(st, a)) || (at < b && !Bare(st, b)) <==> at < a && !Bare(st, b)))
    ensures at < a || at < b ==> Redirect(a, b, at) == at
  {
    SeesBelowExactly(a, b, st, at);
    if at < a || at < b {
      HasBelowAbove(a, b, st, at);
    }
    hide HasBelow, HasBelowOutside, View, Bare;
  }

  // ---------------------------------------------------------------- renames through the mapping

  /** What is found below the source is found below it in the view, when the rename leaves alike. */
  lemma Carried(a: Path, b: Path, st: Store, x: Path, s: Path)
    requires Separate(a, b) && !(b <= x) && LeavesAlike(a, b, st, x)
    ensures Get(View(a, b, st), x + s) == Get(st, Redirect(a, b, x) + s)
  {
    ViewGet(a, b, st, x + s);
    if Clear(a, b, x) {
      RedirectBelow(a, b, x, s);
    } else if a <= x + s {
      Comparable(a, x, x + s);
      assert b <= Redirect(a, b, x + s);
    }
  }

  /** Both kernels carry the rename out, and it leaves and lands alike. */
  predicate BothRename(a: Path, b: Path, st: Store, x: Path, y: Path) {
    && Separate(a, b) && !(b <= x) && !(b <= y)
    && CanRename(st, Redirect(a, b, x), Redirect(a, b, y)) && CanRename(View(a, b, st), x, y)
    && LeavesAlike(a, b, st, x) && LandsAlike(a, b, st, Redirect(a, b, x), y)
  }

  /** What the host finds at a visible name after the rename. */
  function HostFinds(a: Path, b: Path, st: Store, x: Path, y: Path, p: Path): Option<Node> {
    var x', y', p' := Redirect(a, b, x), Redirect(a, b, y), Redirect(a, b, p);
    if y' <= p' then Get(st, x' + p'[|y'|..]) else if x' <= p' then None else Get(st, p')
  }

  function PlainFinds(a: Path, b: Path, st: Store, x: Path, y: Path, p: Path): Option<Node> {
    var view := View(a, b, st);
    if y <= p then Get(view, x + p[|y|..]) else if x <= p then None else Get(view, p)
  }

  lemma RenameSeenElsewhere(a: Path, b: Path, st: Store, x: Path, y: Path, p: Path)
    requires BothRename(a, b, st, x, y) && !(a <= p) && !(b <= p)
    ensures HostFinds(a, b, st, x, y, p) == PlainFinds(a, b, st, x, y, p)
  {
    ViewGet(a, b, st, p);
    if y <= p {
      Carried(a, b, st, x, p[|y|..]);
    }
  }

  lemma RenameSeenBelowTarget(a: Path, b: Path, st: Store, x: Path, y: Path, p: Path)
    requires BothRename(a, b, st, x, y) && a <= p && a <= y
    ensures HostFinds(a, b, st, x, y, p) == PlainFinds(a, b, st, x, y, p)
  {
    UnderOne(a, b, p);
    ViewGet(a, b, st, p);
    CarriedOutApart(st, Redirect(a, b, x), Redirect(a, b, y));
    CarriedOutApart(View(a, b, st), x, y);
    UnderBoth(a, b, y, p);
    if y <= p {
      Carried(a, b, st, x, p[|y|..]);
    } else if a <= x {
      UnderBoth(a, b, x, p);
    } else {
      NotBelowTarget(a, b, x, y, p);
    }
  }

  /** Under the source root the mapping keeps and reflects order, and what is left below. */
  lemma UnderBoth(a: Path, b: Path, y: Path, p: Path)
    requires a <= y && a <= p
    ensures var y', p' := Redirect(a, b, y), Redirect(a, b, p);
            && (y <= p <==> y' <= p')
            && (y <= p ==> p[|y|..] == p'[|y'|..])
  {
    var v, r := y[|a|..], p[|a|..];
    assert y == a + v && p == a + r;
    if y <= p {
      assert r[..|v|] == v;
    }
    if b + v <= b + r {
      assert r[..|v|] == (b + r)[|b|..|b + v|] == v;
    }
  }

  lemma NotBelowTarget(a: Path, b: Path, x: Path, y: Path, p: Path)
    requires a <= y && a <= p && !(a <= x) && !(b <= x)
    requires !(x <= y) && !(x <= Redirect(a, b, y))
    ensures !(x <= p) && !(x <= Redirect(a, b, p))
  {
    if x <= p {
      Comparable(x, a, p);
    }
    if x <= Redirect(a, b, p) {
      Comparable(x, b, Redirect(a, b, p));
    }
  }

  lemma RenameSeenAtRoot(a: Path, b: Path, st: Store, x: Path, y: Path, p: Path)
    requires BothRename(a, b, st, x, y) && a <= p && !(a <= y)
    ensures HostFinds(a, b, st, x, y, p) == PlainFinds(a, b, st, x, y, p)
  {
    hide CanRename, View, LandsAlike;
    UnderOne(a, b, p);
    ViewGet(a, b, st, p);
    CarriedOutApart(st, Redirect(a, b, x), Redirect(a, b, y));
    CarriedOutApart(View(a, b, st), x, y);
    var r := p[|a|..];
    assert p == a + r;
    if y < a {
      LandsNothing(a, b, st, x, y, a, r);
    }
    if y < b {
      LandsNothing(a, b, st, x, y, b, r);
    }
    if y <= p {
      Comparable(y, a, p);
      Carried(a, b, st, x, p[|y|..]);
    }
    if y <= b + r {
      Comparable(y, b, b + r);
    }
    RootLeft(a, b, x, r);
    if y < a || y < b {
      TargetBare(a, b, st, x, y, r);
    }
  }

  lemma LandsNothing(a: Path, b: Path, st: Store, x: Path, y: Path, root: Path, r: Path)
    requires LandsAlike(a, b, st, Redirect(a, b, x), y) && (root == a || root == b) && y < root
    ensures (root + r)[|y|..] == root[|y|..] + r
    ensures Get(st, Redirect(a, b, x) + (root + r)[|y|..]) == None
  {
    var x' := Redirect(a, b, x);
    hide Redirect;
    assert x' + (root[|y|..] + r) == x' + root[|y|..] + r;
    assert x' + root[|y|..] <= x' + (root[|y|..] + r);
  }

  /** Where the source stands to the roots, once the target is no name below them. */
  lemma RootLeft(a: Path, b: Path, x: Path, r: Path)
    requires Separate(a, b) && !(b <= x)
    ensures x <= a + r && !(x < a) ==> a <= x && Redirect(a, b, x) <= b + r
    ensures Redirect(a, b, x) <= b + r && !(x < b) ==> a <= x && x <= a + r
  {
    if a <= x {
      RedirectUnder(a, b, r);
      UnderBoth(a, b, x, a + r);
    } else {
      if x <= a + r {
        Comparable(x, a, a + r);
      }
      if x <= b + r {
        Comparable(x, b, b + r);
      }
    }
  }

  /** A target above a root is carried out only while the program's tree, and the kernel's, is bare there. */
  lemma TargetBare(a: Path, b: Path, st: Store, x: Path, y: Path, r: Path)
    requires BothRename(a, b, st, x, y) && !(a <= y) && (y < a || y < b)
    ensures Get(st, b + r) == None
  {
    ViewGet(a, b, st, a + r);
    RedirectUnder(a, b, r);
    UnderOne(a, b, a + r);
    assert y < b ==> y < b + r;
    assert y < a ==> y < a + r;
  }

  // ---------------------------------------------------------------- what an unfaithful rename shows

  /** Both kernels carry the rename out and nothing the program sees tells them apart. */
  ghost predicate Indistinct(a: Path, b: Path, st: Store, x: Path, y: Path) {
    && Separate(a, b) && !(b <= x) && !(b <= y)
    && CanRename(st, Redirect(a, b, x), Redirect(a, b, y)) && CanRename(View(a, b, st), x, y)
    && (forall p | !(b <= p) :: HostFinds(a, b, st, x, y, p) == PlainFinds(a, b, st, x, y, p))
    && (forall p | b <= p :: PlainFinds(a, b, st, x, y, p) == None)
  }

  /** An ancestor of a root stands for itself, and a target apart from it is no ancestor of that root. */
  lemma AboveRoot(a: Path, b: Path, st: Store, x: Path, y: Path, root: Path)
    requires Separate(a, b) && !(b <= x) && !(b <= y) && (root == a || root == b) && x < root
    requires CanRename(st, Redirect(a, b, x), Redirect(a, b, y)) && CanRename(View(a, b, st), x, y)
    ensures Redirect(a, b, x) == x && !(y <= root) && !(root <= Redirect(a, b, y)) && !(root <= y)
  {
    CarriedOutApart(st, Redirect(a, b, x), Redirect(a, b, y));
    CarriedOutApart(View(a, b, st), x, y);
    if y <= root {
      Comparable(x, y, root);
    }
    if a <= x {
      Comparable(a, root, root);
    }
  }

  /** Nothing the program cannot see is left behind or taken along below the destination. */
  lemma LeavesDestinationBare(a: Path, b: Path, st: Store, x: Path, y: Path, r: Path)
    requires Indistinct(a, b, st, x, y) && (x < a || x < b)
    ensures Get(st, b + r) == None
  {
    RedirectUnder(a, b, r);
    UnderOne(a, b, a + r);
    ViewGet(a, b, st, a + r);
    if x < b {
      AboveRoot(a, b, st, x, y, b);
      if x < a {
        AboveRoot(a, b, st, x, y, a);
        NotOnRoot(y, a, b[|x|..] + r);
        NotOnRoot(y, b, b[|x|..] + r);
        Elsewhere(a, b, st, x, y, b, r);
        ViewGet(a, b, st, b + r);
      } else {
        BesideRoot(a, b, st, x, y, r);
      }
    } else {
      AboveRoot(a, b, st, x, y, a);
      RenamedRoot(a, b, st, x, y, r);
    }
  }

  /** Where a place of the host is a translate of the target, the host finds there what the source held. */
  lemma HostAtTarget(a: Path, b: Path, st: Store, x: Path, y: Path, p: Path, s: Path)
    requires Redirect(a, b, p) == Redirect(a, b, y) + s
    ensures HostFinds(a, b, st, x, y, p) == Get(st, Redirect(a, b, x) + s)
  {
  }

  lemma PlainAtTarget(a: Path, b: Path, st: Store, x: Path, y: Path, s: Path)
    ensures PlainFinds(a, b, st, x, y, y + s) == Get(View(a, b, st), x + s)
  {
    assert (y + s)[|y|..] == s;
  }

  lemma FindsAlike(a: Path, b: Path, st: Store, x: Path, y: Path, p: Path)
    requires Indistinct(a, b, st, x, y) && !(b <= p)
    ensures HostFinds(a, b, st, x, y, p) == PlainFinds(a, b, st, x, y, p)
  {
    assert HostFinds(a, b, st, x, y, p) == PlainFinds(a, b, st, x, y, p);
  }

  /** Content moved from below an ancestor of a root to a visible place, read there by both kernels. */
  lemma Elsewhere(a: Path, b: Path, st: Store, x: Path, y: Path, root: Path, r: Path)
    requires Indistinct(a, b, st, x, y) && (root == a || root == b) && x < root
    requires var p := y + (root[|x|..] + r); !(a <= p) && !(b <= p)
    ensures Get(st, root + r) == Get(View(a, b, st), root + r)
  {
    var s := root[|x|..] + r;
    AboveRoot(a, b, st, x, y, root);
    TailRejoins(x, root, r);
    NotAbovePart(a, y, s);
    assert Redirect(a, b, y + s) == y + s && Redirect(a, b, y) == y;
    FindsAlike(a, b, st, x, y, y + s);
    hide *;
    HostAtTarget(a, b, st, x, y, y + s, s);
    PlainAtTarget(a, b, st, x, y, s);
  }

  lemma TailRejoins(p: Path, root: Path, r: Path)
    requires p <= root
    ensures p + (root[|p|..] + r) == root + r
  {
    assert p + root[|p|..] == root;
    assert p + (root[|p|..] + r) == p + root[|p|..] + r;
  }

  lemma NotAbovePart(root: Path, p: Path, s: Path)
    requires !(root <= p + s)
    ensures !(root <= p)
  {
    assert p <= p + s;
  }

  lemma BesideRoot(a: Path, b: Path, st: Store, x: Path, y: Path, r: Path)
    requires Indistinct(a, b, st, x, y) && x < b && !(x < a)
    ensures Get(st, b + r) == None
  {
    RedirectUnder(a, b, r);
    UnderOne(a, b, a + r);
    ViewGet(a, b, st, a + r);
    AboveRoot(a, b, st, x, y, b);
    assert HostFinds(a, b, st, x, y, a + r) == PlainFinds(a, b, st, x, y, a + r);
    if y < a {
      assert y < a + r;
    } else {
      NotOnRoot(a, y, r);
      NotOnRoot(b, Redirect(a, b, y), r);
      NotOnRoot(a, x, r);
      assert x <= b + r;
    }
  }

  lemma NotOnRoot(root: Path, p: Path, r: Path)
    ensures !(p < root) && !(root <= p) ==> !(p <= root + r)
  {
    if p <= root + r {
      Comparable(p, root, root + r);
    }
  }

  lemma RenamedRoot(a: Path, b: Path, st: Store, x: Path, y: Path, r: Path)
    requires Indistinct(a, b, st, x, y) && x < a && !(x < b)
    ensures Get(st, b + r) == None
  {
    RedirectUnder(a, b, r);
    UnderOne(a, b, a + r);
    ViewGet(a, b, st, a + r);
    AboveRoot(a, b, st, x, y, a);
    assert HostFinds(a, b, st, x, y, a + r) == PlainFinds(a, b, st, x, y, a + r);
    NotOnRoot(a, y, r);
    assert x <= a + r;
    if y < b {
      assert y < b + r;
    } else {
      NotOnRoot(b, y, r);
      NotOnRoot(b, x, r);
    }
  }

  /** Nothing of the real source tree is taken along with one of its ancestors. */
  lemma LeavesSourceBare(a: Path, b: Path, st: Store, x: Path, y: Path, r: Path)
    requires Indistinct(a, b, st, x, y) && x < a && Bare(st, b)
    ensures Get(st, a + r) == None
  {
    RedirectUnder(a, b, r);
    UnderOne(a, b, a + r);
    ViewGet(a, b, st, a + r);
    AboveRoot(a, b, st, x, y, a);
    var s := a[|x|..] + r;
    NotOnRoot(y, a, s);
    if b <= y + s {
      HiddenLanding(a, b, st, x, y, s);
      TailRejoins(x, a, r);
    } else {
      Elsewhere(a, b, st, x, y, a, r);
    }
  }

  /** Content the host moves to a place of the destination shows at the source, where the plain kernel has nothing. */
  lemma HiddenLanding(a: Path, b: Path, st: Store, x: Path, y: Path, s: Path)
    requires Indistinct(a, b, st, x, y) && x < a && b <= y + s
    ensures Get(st, x + s) == None
  {
    var w := (y + s)[|b|..];
    assert y + s == b + w;
    RedirectUnder(a, b, w);
    UnderOne(a, b, a + w);
    AboveRoot(a, b, st, x, y, a);
    NotOnRoot(a, y, w);
    assert x <= a + w;
    assert PlainFinds(a, b, st, x, y, a + w) == None;
    FindsAlike(a, b, st, x, y, a + w);
    HostAtTarget(a, b, st, x, y, a + w, s);
  }

  /** Nothing lands on the destination along with one of its ancestors, where the program could not see it. */
  lemma LandsOnDestination(a: Path, b: Path, st: Store, x: Path, y: Path, r: Path)
    requires Indistinct(a, b, st, x, y) && LeavesAlike(a, b, st, x) && y < b
    ensures Get(st, Redirect(a, b, x) + (b[|y|..] + r)) == None
  {
    var s := b[|y|..] + r;
    assert PlainFinds(a, b, st, x, y, b + r) == None;
    assert Separate(a, b) && !(b <= x);
    hide *;
    TailRejoins(y, b, r);
    PlainAtTarget(a, b, st, x, y, s);
    Carried(a, b, st, x, s);
  }

  /** Nor on the source. */
  lemma LandsOnSource(a: Path, b: Path, st: Store, x: Path, y: Path, r: Path)
    requires Indistinct(a, b, st, x, y) && LeavesAlike(a, b, st, x) && y < a
    ensures Get(st, Redirect(a, b, x) + (a[|y|..] + r)) == None
  {
    var s := a[|y|..] + r;
    UnderOne(a, b, a + r);
    assert Separate(a, b) && !(b <= x);
    hide *;
    HostAboveSource(a, b, st, x, y, r);
    FindsAlike(a, b, st, x, y, a + r);
    TailRejoins(y, a, r);
    PlainAtTarget(a, b, st, x, y, s);
    Carried(a, b, st, x, s);
  }

  lemma HostAboveSource(a: Path, b: Path, st: Store, x: Path, y: Path, r: Path)
    requires Indistinct(a, b, st, x, y) && LeavesAlike(a, b, st, x) && y < a
    ensures HostFinds(a, b, st, x, y, a + r) == None
  {
    RedirectUnder(a, b, r);
    UnderOne(a, b, a + r);
    ViewGet(a, b, st, a + r);
    assert y < a + r && Redirect(a, b, y) == y;
    assert Get(st, b + r) == None;
    if y < b {
      hide *;
      LandsOnDestination(a, b, st, x, y, r);
      TailRejoins(y, b, r);
      HostAtTarget(a, b, st, x, y, a + r, b[|y|..] + r);
    } else {
      NotOnRoot(b, y, r);
    }
  }

  lemma IndistinctIsFaithful(a: Path, b: Path, st: Store, x: Path, y: Path)
    requires Indistinct(a, b, st, x, y)
    ensures LeavesAlike(a, b, st, x) && LandsAlike(a, b, st, Redirect(a, b, x), y)
  {
    if x < a || x < b {
      forall q | q in st ensures !(b <= q) {
        if b <= q {
          assert q == b + q[|b|..];
          LeavesDestinationBare(a, b, st, x, y, q[|b|..]);
        }
      }
    }
    if x < a {
      forall q | q in st ensures !(a <= q) {
        if a <= q {
          assert q == a + q[|a|..];
          LeavesSourceBare(a, b, st, x, y, q[|a|..]);
        }
      }
    }
    if y < a {
      LandsBareAt(a, b, st, x, y, a);
    }
    if y < b {
      LandsBareAt(a, b, st, x, y, b);
    }
  }

  lemma LandsAt(a: Path, b: Path, st: Store, x: Path, y: Path, root: Path, r: Path)
    requires Indistinct(a, b, st, x, y) && LeavesAlike(a, b, st, x)
    requires (root == a || root == b) && y < root
    ensures Get(st, Redirect(a, b, x) + root[|y|..] + r) == None
  {
    hide *;
    var x' := Redirect(a, b, x);
    assert x' + (root[|y|..] + r) == x' + root[|y|..] + r;
    if root == a {
      LandsOnSource(a, b, st, x, y, r);
    } else {
      LandsOnDestination(a, b, st, x, y, r);
    }
  }

  lemma LandsBareAt(a: Path, b: Path, st: Store, x: Path, y: Path, root: Path)
    requires Indistinct(a, b, st, x, y) && LeavesAlike(a, b, st, x)
    requires (root == a || root == b) && y < root
    ensures Bare(st, Redirect(a, b, x) + root[|y|..])
  {
    hide Redirect, Indistinct, LeavesAlike;
    var landing := Redirect(a, b, x) + root[|y|..];
    forall q | q in st ensures !(landing <= q) {
      if landing <= q {
        assert q == landing + q[|landing|..];
        LandsAt(a, b, st, x, y, root, q[|landing|..]);
      }
    }
  }

  // ---------------------------------------------------------------- one step through the mapping

  lemma LinkSeen(a: Path, b: Path, st: Store, x: Path, y: Path, p: Path)
    requires Separate(a, b) && !(b <= x) && !(b <= y) && !(b <= p)
    ensures Get(Apply(st, Link(Redirect(a, b, x), Redirect(a, b, y))), Redirect(a, b, p)) ==
            Get(Apply(View(a, b, st), Link(x, y)), p)
  {
    ViewGet(a, b, st, p);
    ViewGet(a, b, st, x);
    ViewGet(a, b, st, y);
    VisibleDistinct(a, b, p, y);
    hide View, Redirect;
  }

  lemma CreateSeen(a: Path, b: Path, st: Store, op: Op, p: Path)
    requires Separate(a, b) && (op.Create? || op.MakeDir?) && !(b <= op.at) && !(b <= p)
    ensures Get(Apply(st, Redirected(a, b, op)), Redirect(a, b, p)) == Get(Apply(View(a, b, st), op), p)
  {
    ViewGet(a, b, st, p);
    ViewGet(a, b, st, op.at);
    VisibleDistinct(a, b, p, op.at);
    hide View, Redirect;
  }

  lemma RemoveSeenExactly(a: Path, b: Path, st: Store, at: Path, directory: bool, p: Path)
    requires Separate(a, b) && !(b <= at) && !(b <= p)
    ensures var host := Apply(st, Remove(Redirect(a, b, at), directory));
            var plain := Apply(View(a, b, st), Remove(at, directory));
            && (Faithful(a, b, st, Remove(at, directory)) ==> Get(host, Redirect(a, b, p)) == Get(plain, p))
            && (!Faithful(a, b, st, Remove(at, directory)) && p == at ==>
                  Get(host, Redirect(a, b, p)) != Get(plain, p))
  {
    ViewGet(a, b, st, p);
    ViewGet(a, b, st, at);
    VisibleDistinct(a, b, p, at);
    hide View, Redirect, HasBelow;
  }

  /** A rename reads as stated from either side. */
  lemma RenameFinds(a: Path, b: Path, st: Store, x: Path, y: Path, p: Path)
    ensures CanRename(st, Redirect(a, b, x), Redirect(a, b, y)) ==>
              Get(Apply(st, Rename(Redirect(a, b, x), Redirect(a, b, y))), Redirect(a, b, p)) ==
              HostFinds(a, b, st, x, y, p)
    ensures CanRename(View(a, b, st), x, y) ==>
              Get(Apply(View(a, b, st), Rename(x, y)), p) == PlainFinds(a, b, st, x, y, p)
  {
    if CanRename(st, Redirect(a, b, x), Redirect(a, b, y)) {
      MovedGet(st, Redirect(a, b, x), Redirect(a, b, y), Redirect(a, b, p));
    }
    if CanRename(View(a, b, st), x, y) {
      MovedGet(View(a, b, st), x, y, p);
    }
  }

  lemma RenameSeen(a: Path, b: Path, st: Store, x: Path, y: Path, p: Path)
    requires Separate(a, b) && !(b <= x) && !(b <= y) && Faithful(a, b, st, Rename(x, y)) && !(b <= p)
    ensures Get(Apply(st, Rename(Redirect(a, b, x), Redirect(a, b, y))), Redirect(a, b, p)) ==
            Get(Apply(View(a, b, st), Rename(x, y)), p)
  {
    ViewGet(a, b, st, p);
    RenameFinds(a, b, st, x, y, p);
    hide View, Redirect, HostFinds, PlainFinds, LeavesAlike, LandsAlike, CanRename;
    if CanRename(View(a, b, st), x, y) {
      if !(a <= p) {
        RenameSeenElsewhere(a, b, st, x, y, p);
      } else if a <= y {
        RenameSeenBelowTarget(a, b, st, x, y, p);
      } else {
        RenameSeenAtRoot(a, b, st, x, y, p);
      }
    }
  }

  /** Nothing appears in the plain tree at the destination. */
  lemma HiddenStaysHidden(a: Path, b: Path, st: Store, op: Op, p: Path)
    requires Separate(a, b) && Redirected(b, a, op) == op && Faithful(a, b, st, op) && b <= p
    ensures Get(Apply(View(a, b, st), op), p) == None
  {
    ViewGet(a, b, st, p);
    match op
    case Link(x, y) => Aliases(a, b, y);
    case Rename(x, y) =>
      Aliases(a, b, x);
      Aliases(a, b, y);
      if CanRename(View(a, b, st), x, y) {
        HiddenRename(a, b, st, x, y, p);
      }
    case _ => Aliases(a, b, op.at);
  }

  lemma HiddenRename(a: Path, b: Path, st: Store, x: Path, y: Path, p: Path)
    requires BothRename(a, b, st, x, y) && b <= p
    ensures Get(Apply(View(a, b, st), Rename(x, y)), p) == None
  {
    hide CanRename, View, Redirect, LeavesAlike, LandsAlike, Apply, Get;
    ViewGet(a, b, st, p);
    RenameFinds(a, b, st, x, y, p);
    if y <= p {
      Comparable(b, y, p);
      HiddenTarget(a, b, st, x, y, p[|b|..]);
      assert b + p[|b|..] == p;
    }
    hide *;
    PlainHidden(a, b, st, x, y, p);
  }

  lemma PlainHidden(a: Path, b: Path, st: Store, x: Path, y: Path, p: Path)
    requires Get(View(a, b, st), p) == None
    requires y <= p ==> Get(View(a, b, st), x + p[|y|..]) == None
    ensures PlainFinds(a, b, st, x, y, p) == None
  {
  }

  lemma HiddenTarget(a: Path, b: Path, st: Store, x: Path, y: Path, r: Path)
    requires BothRename(a, b, st, x, y) && y < b
    ensures Get(View(a, b, st), x + (b + r)[|y|..]) == None
  {
    LandsNothing(a, b, st, x, y, b, r);
    Carried(a, b, st, x, (b + r)[|y|..]);
  }

  lemma StepSeen(a: Path, b: Path, st: Store, op: Op, p: Path)
    requires Separate(a, b) && Faithful(a, b, st, op) && Redirected(b, a, op) == op && !(b <= p)
    ensures Get(Apply(st, Redirected(a, b, op)), Redirect(a, b, p)) == Get(Apply(View(a, b, st), op), p)
  {
    hide Apply, View, Get, Redirect, Faithful;
    match op
    case Rename(x, y) =>
      Aliases(a, b, x);
      Aliases(a, b, y);
      RenameSeen(a, b, st, x, y, p);
    case Link(x, y) =>
      Aliases(a, b, x);
      Aliases(a, b, y);
      LinkSeen(a, b, st, x, y, p);
    case Remove(at, directory) =>
      Aliases(a, b, at);
      RemoveSeenExactly(a, b, st, at, directory, p);
    case _ =>
      Aliases(a, b, op.at);
      CreateSeen(a, b, st, op, p);
  }

  lemma StepCommutes(a: Path, b: Path, st: Store, op: Op)
    requires Separate(a, b) && Redirected(b, a, op) == op && Faithful(a, b, st, op)
    ensures View(a, b, Apply(st, Redirected(a, b, op))) == Apply(View(a, b, st), op)
  {
    hide Apply, View, Get, Redirect, Faithful, Redirected;
    var after, plain := Apply(st, Redirected(a, b, op)), Apply(View(a, b, st), op);
    forall p ensures Get(View(a, b, after), p) == Get(plain, p) {
      ViewGet(a, b, after, p);
      if b <= p {
        HiddenStaysHidden(a, b, st, op, p);
      } else {
        StepSeen(a, b, st, op, p);
      }
    }
    SameStore(View(a, b, after), plain);
  }

  /** A rename only one kernel carries out shows at its source. */
  lemma OneSidedRename(a: Path, b: Path, st: Store, x: Path, y: Path)
    requires Separate(a, b) && !(b <= x) && !(b <= y)
    requires CanRename(st, Redirect(a, b, x), Redirect(a, b, y)) != CanRename(View(a, b, st), x, y)
    ensures Get(Apply(st, Rename(Redirect(a, b, x), Redirect(a, b, y))), Redirect(a, b, x)) !=
            Get(Apply(View(a, b, st), Rename(x, y)), x)
  {
    ViewGet(a, b, st, x);
    RenameFinds(a, b, st, x, y, x);
    if CanRename(View(a, b, st), x, y) {
      CarriedOutApart(View(a, b, st), x, y);
    } else {
      CarriedOutApart(st, Redirect(a, b, x), Redirect(a, b, y));
    }
  }

  lemma CommutingRename(a: Path, b: Path, st: Store, x: Path, y: Path)
    requires Separate(a, b) && !(b <= x) && !(b <= y)
    requires View(a, b, Apply(st, Rename(Redirect(a, b, x), Redirect(a, b, y)))) ==
             Apply(View(a, b, st), Rename(x, y))
    ensures Faithful(a, b, st, Rename(x, y))
  {
    var after := Apply(st, Rename(Redirect(a, b, x), Redirect(a, b, y)));
    hide Apply, View, Get, Redirect, HostFinds, PlainFinds, LeavesAlike, LandsAlike, CanRename;
    ViewGet(a, b, after, x);
    if CanRename(st, Redirect(a, b, x), Redirect(a, b, y)) != CanRename(View(a, b, st), x, y) {
      OneSidedRename(a, b, st, x, y);
    } else if CanRename(View(a, b, st), x, y) {
      forall p ensures if b <= p then PlainFinds(a, b, st, x, y, p) == None
                       else HostFinds(a, b, st, x, y, p) == PlainFinds(a, b, st, x, y, p)
      {
        ViewGet(a, b, after, p);
        RenameFinds(a, b, st, x, y, p);
      }
      IndistinctIsFaithful(a, b, st, x, y);
    }
  }

  /**
    The view of an issued operation is the plain operation, on aliases, on the view, exactly when the
    operation is faithful in the store it meets.
   */
  lemma StepCommutesExactly(a: Path, b: Path, st: Store, op: Op)
    requires Separate(a, b)
    ensures View(a, b, Apply(st, Redirected(a, b, op))) == Apply(View(a, b, st), Redirected(b, a, op)) <==>
            Faithful(a, b, st, Redirected(b, a, op))
  {
    var alias := Redirected(b, a, op);
    RedirectedTwice(a, b, op);
    if Faithful(a, b, st, alias) {
      StepCommutes(a, b, st, alias);
    } else if alias.Remove? {
      Aliases(a, b, alias.at);
      RemoveSeenExactly(a, b, st, alias.at, alias.directory, alias.at);
      ViewGet(a, b, Apply(st, Redirected(a, b, alias)), alias.at);
    } else if View(a, b, Apply(st, Redirected(a, b, op))) == Apply(View(a, b, st), alias) {
      Aliases(a, b, alias.source);
      Aliases(a, b, alias.target);
      CommutingRename(a, b, st, alias.source, alias.target);
    }
  }
}
