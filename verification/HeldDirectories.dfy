/** The directories a process holds while renames move them: the host's against the program's. */
module HeldDirectories {
  import opened CStrings
  import opened Components
  import opened Mapping
  import opened Locations
  import opened Walks
  import opened FileStore
  import opened Views

  /** Where a directory held at p is after everything at x moved to y. */
  function Carry(x: Path, y: Path, p: Path): Path {
    if x <= p then y + p[|x|..] else p
  }

  /** A held directory moves along with a renamed ancestor. */
  function Followed(st: Store, op: Op, p: Path): Path {
    if op.Rename? && CanRename(st, op.source, op.target) then Carry(op.source, op.target, p) else p
  }

  /** A directory of the host and the program's name for it. */
  predicate Reflects(a: Path, b: Path, host: Path, plain: Path) {
    host == Redirect(a, b, plain) && !(b <= plain) && IsPath(host)
  }

  /**
    By their names alone: a carried-out rename of x to y moves a directory held under the source with neither
    root, and moves no held directory onto the destination or, along with an ancestor, to the source.
   */
  predicate HeldAlike(a: Path, b: Path, x: Path, y: Path, plain: Path) {
    && (a <= plain ==> !(x < a) && !(x < b))
    && (x <= plain ==> var moved := y + plain[|x|..]; !(b <= moved) && !(y < a && a <= moved))
  }

  /** The places of a rename are visible, and apart on both sides. */
  predicate ApartPlaces(a: Path, b: Path, x: Path, y: Path) {
    var x', y' := Redirect(a, b, x), Redirect(a, b, y);
    Separate(a, b) && !(b <= x) && !(b <= y) && !(x <= y) && !(y <= x) && !(x' <= y') && !(y' <= x')
  }

  /** At or below the source, and away from both roots, the mapping is a translation. */
  lemma Translated(a: Path, b: Path, p: Path, s: Path)
    requires a <= p + s ==> a <= p
    ensures Redirect(a, b, p + s) == Redirect(a, b, p) + s
  {
    if a <= p {
      var r := p[|a|..];
      assert p == a + r && p + s == a + (r + s);
      RedirectUnder(a, b, r);
      RedirectUnder(a, b, r + s);
      hide Redirect;
      assert b + (r + s) == b + r + s;
    }
  }

  /** A directory moved to y by the same names on both sides. */
  lemma MovedAlike(a: Path, b: Path, y: Path, s: Path)
    requires Separate(a, b)
    ensures Redirect(a, b, y + s) == Redirect(a, b, y) + s <==> !(y < a && a <= y + s)
  {
    if a <= y || !(a <= y + s) {
      Translated(a, b, y, s);
    } else {
      Comparable(a, y, y + s);
      RedirectOnce(a, b, y + s);
    }
  }

  /** While an ancestor of the source moves, alone or with the destination, a directory held there is lost. */
  lemma LostBelowSource(a: Path, b: Path, x: Path, y: Path, r: Path)
    requires ApartPlaces(a, b, x, y) && x < a
    ensures var moved := Carry(x, y, a + r);
            Carry(Redirect(a, b, x), Redirect(a, b, y), b + r) != Redirect(a, b, moved) || b <= moved
  {
    var s := a[|x|..] + r;
    TailRejoins(x, a, r);
    NotAbove(a, x, y, s);
    assert Redirect(a, b, x) == x && Redirect(a, b, y) == y && Redirect(a, b, y + s) == y + s;
    assert a != b;
    hide Redirect, ApartPlaces;
    if x < b {
      var s' := b[|x|..] + r;
      TailRejoins(x, b, r);
      TailsDiffer(a, b, x);
      if y + s == y + s' {
        SameHead(y, y, s, s');
        SameHead(a[|x|..], b[|x|..], r, r);
      }
    } else {
      NotOnRoot(b, x, r);
      if y + s == b + r {
        Comparable(y, b, b + r);
      }
    }
  }

  lemma TailsDiffer(a: Path, b: Path, x: Path)
    requires a != b && x <= a && x <= b
    ensures a[|x|..] != b[|x|..]
  {
    assert a == x + a[|x|..] && b == x + b[|x|..];
  }

  /** A place apart from an ancestor of a root leads into that root by no extension. */
  lemma NotAbove(root: Path, x: Path, y: Path, s: Path)
    requires x < root && !(x <= y) && !(y <= x)
    ensures !(root <= y + s) && !(root <= y)
  {
    if y <= root {
      Comparable(x, y, root);
    } else if root <= y + s {
      Comparable(root, y, y + s);
    }
  }

  /** While only an ancestor of the destination moves, the kernel's directory leaves and the program's stays. */
  lemma LostBelowDestination(a: Path, b: Path, x: Path, y: Path, r: Path)
    requires ApartPlaces(a, b, x, y) && x < b && !(x < a)
    ensures var moved := Carry(x, y, a + r);
            Carry(Redirect(a, b, x), Redirect(a, b, y), b + r) != Redirect(a, b, moved) || b <= moved
  {
    var s' := b[|x|..] + r;
    assert Redirect(a, b, x) == x;
    UnderOne(b, a, b + r);
    NotOnRoot(a, x, r);
    RedirectUnder(a, b, r);
    TailRejoins(x, b, r);
    hide ApartPlaces;
    if Redirect(a, b, y) + s' == b + r {
      SameHead(Redirect(a, b, y), x, s', s');
    }
  }

  /** Two moves between apart places take a host directory and the program's to one place exactly when held alike. */
  lemma CarryReflects(a: Path, b: Path, x: Path, y: Path, host: Path, plain: Path)
    requires ApartPlaces(a, b, x, y) && IsPath(Redirect(a, b, y)) && Reflects(a, b, host, plain)
    ensures Reflects(a, b, Carry(Redirect(a, b, x), Redirect(a, b, y), host), Carry(x, y, plain)) <==>
            HeldAlike(a, b, x, y, plain)
  {
    CarriedIsPath(Redirect(a, b, x), Redirect(a, b, y), host);
    if a <= plain && (x < a || x < b) {
      assert plain == a + plain[|a|..];
      RedirectUnder(a, b, plain[|a|..]);
      hide IsPath, Redirect;
      if x < a {
        LostBelowSource(a, b, x, y, plain[|a|..]);
      } else {
        LostBelowDestination(a, b, x, y, plain[|a|..]);
      }
    } else if x <= plain {
      var s := plain[|x|..];
      assert plain == x + s;
      if a <= plain {
        Comparable(a, x, plain);
      }
      hide IsPath, Redirect;
      Translated(a, b, x, s);
      MovedAlike(a, b, y, s);
    } else {
      hide IsPath, Redirect;
      StaysBehind(a, b, x, plain);
    }
  }

  lemma CarriedIsPath(x: Path, y: Path, p: Path)
    requires IsPath(y) && IsPath(p)
    ensures IsPath(Carry(x, y, p))
  {
    if x <= p {
      assert p == x + p[|x|..];
      IsPathTail(x, p[|x|..]);
    }
  }

  lemma StaysBehind(a: Path, b: Path, x: Path, plain: Path)
    requires Separate(a, b) && !(b <= x) && !(b <= plain) && !(x <= plain) && (a <= plain ==> !(x < a) && !(x < b))
    ensures !(Redirect(a, b, x) <= Redirect(a, b, plain))
  {
    if a <= x {
      if a <= plain {
        UnderBoth(a, b, x, plain);
      }
    } else if a <= plain && x <= Redirect(a, b, plain) {
      Comparable(x, b, Redirect(a, b, plain));
    }
  }

  /** After a rename both kernels carry out, a held directory is the image of the program's exactly when held alike. */
  lemma FollowedExactly(a: Path, b: Path, st: Store, x: Path, y: Path, host: Path, plain: Path)
    requires Separate(a, b) && !(b <= x) && !(b <= y) && IsPath(Redirect(a, b, y))
    requires CanRename(st, Redirect(a, b, x), Redirect(a, b, y)) && CanRename(View(a, b, st), x, y)
    requires Reflects(a, b, host, plain)
    ensures Reflects(a, b, Followed(st, Rename(Redirect(a, b, x), Redirect(a, b, y)), host),
                     Followed(View(a, b, st), Rename(x, y), plain)) <==>
            HeldAlike(a, b, x, y, plain)
  {
    CarriedOutApart(st, Redirect(a, b, x), Redirect(a, b, y));
    CarriedOutApart(View(a, b, st), x, y);
    assert ApartPlaces(a, b, x, y);
    hide CanRename, View, Redirect, Separate, IsPath, Reflects, HeldAlike, ApartPlaces;
    CarryReflects(a, b, x, y, host, plain);
  }

  /** A held directory that no operation moves stays the image of the program's. */
  lemma UnmovedReflects(a: Path, b: Path, st: Store, op: Op, host: Path, plain: Path)
    requires Reflects(a, b, host, plain) && Faithful(a, b, st, op)
    requires !(op.Rename? && CanRename(View(a, b, st), op.source, op.target))
    ensures Reflects(a, b, Followed(st, Redirected(a, b, op), host), Followed(View(a, b, st), op, plain))
  {
    hide CanRename, View, Redirect, Reflects;
  }

  lemma HeldReflects(a: Path, b: Path, st: Store, op: Op, host: Path, plain: Path)
    requires Separate(a, b) && Redirected(b, a, op) == op && Faithful(a, b, st, op)
    requires op.Rename? ==> IsPath(Redirect(a, b, op.target))
    requires Reflects(a, b, host, plain)
    ensures Reflects(a, b, Followed(st, Redirected(a, b, op), host), Followed(View(a, b, st), op, plain)) <==>
            (op.Rename? && CanRename(View(a, b, st), op.source, op.target) ==>
               HeldAlike(a, b, op.source, op.target, plain))
  {
    if op.Rename? && CanRename(View(a, b, st), op.source, op.target) {
      Aliases(a, b, op.source);
      Aliases(a, b, op.target);
      hide CanRename, View, Redirect, Reflects, HeldAlike, IsPath, Followed;
      FollowedExactly(a, b, st, op.source, op.target, host, plain);
    } else {
      UnmovedReflects(a, b, st, op, host, plain);
    }
  }

  lemma ClearMovesAlike(a: Path, b: Path, x: Path, y: Path, plain: Path)
    requires Separate(a, b) && Clear(a, b, x) && Clear(a, b, y) && !(b <= x) && !(b <= y) && !(b <= plain)
    ensures HeldAlike(a, b, x, y, plain)
  {
    RedirectOrder(a, b, x, plain);
    if x <= plain {
      RedirectBelow(a, b, y, plain[|x|..]);
    }
  }

  // ---------------------------------------------------------------- directories that exist

  /** A faithful rename moves every directory that still exists alike. */
  lemma ExistingHeldAlike(a: Path, b: Path, st: Store, x: Path, y: Path, plain: Path)
    requires Separate(a, b) && !(b <= x) && !(b <= y) && !(b <= plain)
    requires Faithful(a, b, st, Rename(x, y)) && CanRename(View(a, b, st), x, y)
    requires Redirect(a, b, plain) in st
    ensures HeldAlike(a, b, x, y, plain)
  {
    var host := Redirect(a, b, plain);
    hide CanRename, View;
    if a <= plain {
      assert b <= host;
    }
    if x <= plain {
      var s := plain[|x|..];
      assert plain == x + s;
      if a <= plain {
        Comparable(a, x, plain);
      }
      ExistingMovesNowhereElse(a, b, st, x, y, s);
    }
  }

  lemma ExistingMovesNowhereElse(a: Path, b: Path, st: Store, x: Path, y: Path, s: Path)
    requires !(b <= x) && !(b <= y) && !(b <= x + s) && (a <= x + s ==> a <= x)
    requires LandsAlike(a, b, st, Redirect(a, b, x), y) && Redirect(a, b, x + s) in st
    ensures !(b <= y + s) && !(y < a && a <= y + s)
  {
    var x' := Redirect(a, b, x);
    Translated(a, b, x, s);
    hide Redirect;
    if b <= y + s {
      Comparable(b, y, y + s);
      TailUnder(x', b, y, s);
    }
    if y < a && a <= y + s {
      TailUnder(x', a, y, s);
    }
  }

  lemma TailUnder(p: Path, root: Path, y: Path, s: Path)
    requires y <= root <= y + s
    ensures p + root[|y|..] <= p + s
  {
    assert root[|y|..] <= (y + s)[|y|..];
  }

  /** A held directory that exists still does after any operation but its own removal. */
  lemma HeldKept(st: Store, op: Op, p: Path)
    requires Get(st, p) == Some(Directory)
    ensures Get(Apply(st, op), Followed(st, op, p)) == Some(Directory) <==> !(op.Remove? && Changes(st, op, p))
  {
    if op.Rename? && CanRename(st, op.source, op.target) {
      var x, y := op.source, op.target;
      CarriedOutApart(st, x, y);
      MovedGet(st, x, y, Followed(st, op, p));
      if x <= p {
        assert (y + p[|x|..])[|y|..] == p[|x|..] && x + p[|x|..] == p;
      } else if y <= p {
        assert y == p && x + p[|y|..] == x;
      }
    }
  }
}
