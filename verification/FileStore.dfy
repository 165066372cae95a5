/** The kernel's file tree: a symlink-free store of names and the operations on it, and when a root is left alone. */
module FileStore {
  import opened CStrings
  import opened Components
  import opened Mapping

  // ---------------------------------------------------------------- the kernel's store

  datatype Node = Directory | File(ino: int)

  type Store = map<Path, Node>

  function Get(st: Store, p: Path): Option<Node> {
    if p in st then Some(st[p]) else None
  }

  /** What a call does once its paths are resolved. */
  datatype Op =
    | Create(at: Path, ino: int)
    | MakeDir(at: Path)
    | Remove(at: Path, directory: bool)
    | Link(source: Path, target: Path)
    | Rename(source: Path, target: Path)

  predicate HasBelow(st: Store, p: Path) {
    exists q | q in st :: p < q
  }

  /** What is at a may take the place of what is at b: nothing, another file for a file, or a directory for one. */
  predicate Replaceable(st: Store, a: Path, b: Path) {
    a in st && (b in st ==> if st[a].Directory? then st[b].Directory? else st[b].File? && st[b] != st[a])
  }

  /** A rename the kernel carries out: not into itself, and onto nothing, another file, or an empty directory. */
  predicate CanRename(st: Store, a: Path, b: Path) {
    Replaceable(st, a, b) && !(a <= b) && !HasBelow(st, b)
  }

  function Moved(st: Store, a: Path, b: Path): Store {
    (map q | q in st && !(a <= q) && !(b <= q) :: st[q]) +
    (map q | q in (set p | p in st && a <= p :: b + p[|a|..]) && a + q[|b|..] in st :: st[a + q[|b|..]])
  }

  function Apply(st: Store, op: Op): Store {
    match op
    case Create(at, ino) => if at in st then st else st[at := File(ino)]
    case MakeDir(at) => if at in st then st else st[at := Directory]
    case Remove(at, directory) =>
      if at in st && (if directory then st[at].Directory? && !HasBelow(st, at) else st[at].File?) then st - {at} else st
    case Link(a, b) => if a in st && st[a].File? && b !in st then st[b := st[a]] else st
    case Rename(a, b) => if CanRename(st, a, b) then Moved(st, a, b) else st
  }

  lemma MovedGet(st: Store, a: Path, b: Path, q: Path)
    requires CanRename(st, a, b)
    ensures Get(Moved(st, a, b), q) ==
            if b <= q then Get(st, a + q[|b|..]) else if a <= q then None else Get(st, q)
  {
    if b <= q {
      var p := a + q[|b|..];
      assert p[|a|..] == q[|b|..] && b + q[|b|..] == q;
      if p in st {
        assert q == b + p[|a|..];
      }
    } else {
      assert forall p | p in st && a <= p :: b <= b + p[|a|..];
    }
  }

  lemma SameStore(st: Store, st': Store)
    requires forall p :: Get(st, p) == Get(st', p)
    ensures st == st'
  {
    forall p ensures p in st <==> p in st' {
      assert Get(st, p) == Get(st', p);
    }
    forall p | p in st ensures st[p] == st'[p] {
      assert Get(st, p) == Get(st', p);
    }
  }

  function Redirected(a: Path, b: Path, op: Op): Op {
    match op
    case Create(at, ino) => Create(Redirect(a, b, at), ino)
    case MakeDir(at) => MakeDir(Redirect(a, b, at))
    case Remove(at, directory) => Remove(Redirect(a, b, at), directory)
    case Link(x, y) => Link(Redirect(a, b, x), Redirect(a, b, y))
    case Rename(x, y) => Rename(Redirect(a, b, x), Redirect(a, b, y))
  }

  lemma RedirectedTwice(a: Path, b: Path, op: Op)
    requires Separate(a, b)
    ensures Redirected(a, b, Redirected(b, a, op)) == Redirected(a, b, op)
    ensures Redirected(b, a, Redirected(b, a, op)) == Redirected(b, a, op)
  {
    match op
    case Link(x, y) => Aliases(a, b, x); Aliases(a, b, y); RedirectOnce(b, a, x); RedirectOnce(b, a, y);
    case Rename(x, y) => Aliases(a, b, x); Aliases(a, b, y); RedirectOnce(b, a, x); RedirectOnce(b, a, y);
    case _ => Aliases(a, b, op.at); RedirectOnce(b, a, op.at);
  }

  // ---------------------------------------------------------------- what one operation changes

  /** A rename that is carried out is between places neither of which lies in the other. */
  lemma CarriedOutApart(st: Store, x: Path, y: Path)
    requires CanRename(st, x, y)
    ensures !(x <= y) && !(y <= x)
  {
  }

  /** The operation makes a difference at x. */
  predicate Changes(st: Store, op: Op, x: Path) {
    match op
    case Create(at, _) => x == at && at !in st
    case MakeDir(at) => x == at && at !in st
    case Remove(at, directory) =>
      x == at && at in st && if directory then st[at].Directory? && !HasBelow(st, at) else st[at].File?
    case Link(a, b) => x == b && b !in st && a in st && st[a].File?
    case Rename(a, b) =>
      CanRename(st, a, b) &&
      if b <= x then Get(st, a + x[|b|..]) != Get(st, x) else a <= x && x in st
  }

  /** What a lookup of x finds once the operation has made a difference there. */
  function Found(op: Op, st: Store, x: Path): Option<Node>
    requires Changes(st, op, x)
  {
    match op
    case Create(_, ino) => Some(File(ino))
    case MakeDir(_) => Some(Directory)
    case Remove(_, _) => None
    case Link(a, _) => Get(st, a)
    case Rename(a, b) => if b <= x then Get(st, a + x[|b|..]) else None
  }

  /** Places notice an operation exactly where it changes them, and then hold what it left. */
  lemma ChangesExactly(st: Store, op: Op, x: Path)
    ensures Get(Apply(st, op), x) != Get(st, x) <==> Changes(st, op, x)
    ensures Changes(st, op, x) ==> Get(Apply(st, op), x) == Found(op, st, x)
  {
    if op.Rename? && CanRename(st, op.source, op.target) {
      MovedGet(st, op.source, op.target, x);
    }
  }

  /** When a rename does anything, case by case (section "rename" of IEEE Std 1003.1-2017, System Interfaces). */
  lemma RenameHappensExactly(st: Store, a: Path, b: Path)
    ensures Apply(st, Rename(a, b)) != st <==>
            && Get(st, a) != None && !(a <= b) && (forall q | q in st :: !(b < q))
            && match Get(st, b) {
                 case None => true
                 case Some(Directory) => Get(st, a) == Some(Directory)
                 case Some(File(ino)) => Get(st, a) != Some(Directory) && Get(st, a) != Some(File(ino))
               }
  {
    ChangesExactly(st, Rename(a, b), a);
    if CanRename(st, a, b) {
      CarriedOutApart(st, a, b);
    }
  }

  // ---------------------------------------------------------------- isolation of one root

  function Subtree(root: Path, st: Store): Store {
    map x | x in st && root <= x :: st[x]
  }

  /** Nothing is stored at or below root. */
  predicate Bare(st: Store, root: Path) {
    forall q | q in st :: !(root <= q)
  }

  /** The one place an operation other than a rename may change. */
  function Target(op: Op): Path
    requires !op.Rename?
  {
    if op.Link? then op.target else op.at
  }

  /** The operation acts on no place under root. */
  predicate ActsOutside(root: Path, op: Op) {
    if op.Rename? then !(root <= op.source) && !(root <= op.target) else !(root <= Target(op))
  }

  /**
    An operation under root has no effect.  A rename that is carried out takes nothing from there, and
    replaces there at most one empty directory by another; it takes nothing away along with an
    ancestor of root, and brings nothing there along with one.
   */
  predicate Spares(root: Path, st: Store, op: Op) {
    if op.Rename? then
      var s, t := op.source, op.target;
      CanRename(st, s, t) ==>
        && !(root <= s)
        && (root <= t ==> Get(st, t) == Get(st, s) && !HasBelow(st, s))
        && (s < root ==> Bare(st, root))
        && (t < root ==> Bare(st, s + root[|t|..]))
    else root <= Target(op) ==> !Changes(st, op, Target(op))
  }

  /** On places outside root only a rename of or onto an ancestor of root can fail to spare it. */
  lemma SparesOutside(root: Path, st: Store, op: Op)
    requires ActsOutside(root, op)
    ensures Spares(root, st, op) <==>
            (op.Rename? && CanRename(st, op.source, op.target) ==>
               && (op.source < root ==> Bare(st, root))
               && (op.target < root ==> Bare(st, op.source + root[|op.target|..])))
  {
  }

  lemma SubtreeGet(root: Path, st: Store, x: Path)
    ensures Get(Subtree(root, st), x) == if root <= x then Get(st, x) else None
  {
  }

  lemma SparesKeeps(root: Path, st: Store, op: Op, x: Path)
    requires Spares(root, st, op) && root <= x
    ensures !Changes(st, op, x)
  {
    if op.Rename? && CanRename(st, op.source, op.target) {
      var s, t := op.source, op.target;
      if t <= x {
        Comparable(t, root, x);
        LandsUnder(root, st, s, t, x);
      } else if s <= x {
        Comparable(s, root, x);
      }
    }
  }

  lemma LandsUnder(root: Path, st: Store, s: Path, t: Path, x: Path)
    requires CanRename(st, s, t) && Spares(root, st, Rename(s, t)) && root <= x && t <= x
    ensures Get(st, s + x[|t|..]) == Get(st, x)
  {
    var tail := x[|t|..];
    assert x == t + tail;
    if tail == [] {
      assert s + tail == s && x == t;
      Comparable(t, root, x);
    } else {
      assert t < x && s < s + tail;
      if t < root {
        assert s + root[|t|..] <= s + tail;
      } else {
        Comparable(t, root, x);
      }
    }
  }

  lemma TakenAway(root: Path, st: Store, s: Path, t: Path, q: Path)
    requires CanRename(st, s, t) && s <= root && root <= q && q in st
    ensures Changes(st, Rename(s, t), q)
  {
    if t <= q {
      Comparable(t, s, q);
    }
  }

  lemma BroughtAlong(root: Path, st: Store, s: Path, t: Path, q: Path)
    requires CanRename(st, s, t) && t <= root && s + root[|t|..] <= q && q in st && s != q
    ensures var x := root + q[|s + root[|t|..]|..]; root <= x && Changes(st, Rename(s, t), x)
  {
    var tail := q[|s + root[|t|..]|..];
    var x := root + tail;
    assert q == s + root[|t|..] + tail;
    assert root == t + root[|t|..];
    assert x == t + (root[|t|..] + tail) && x[|t|..] == root[|t|..] + tail;
    assert q == s + x[|t|..];
    assert t < x;
  }

  /** A place under root that notices an operation which does not spare it. */
  lemma Noticed(root: Path, st: Store, op: Op) returns (x: Path)
    requires !Spares(root, st, op)
    ensures root <= x && Changes(st, op, x)
  {
    if !op.Rename? {
      x := Target(op);
    } else {
      var s, t := op.source, op.target;
      if root <= s {
        TakenAway(s, st, s, t, s);
        x := s;
      } else if root <= t && Get(st, t) != Get(st, s) {
        assert s + t[|t|..] == s;
        x := t;
      } else if root <= t {
        var q :| q in st && s < q;
        assert s + t[|t|..] == s;
        BroughtAlong(t, st, s, t, q);
        x := t + q[|s|..];
      } else if s < root && !Bare(st, root) {
        var q :| q in st && root <= q;
        TakenAway(root, st, s, t, q);
        x := q;
      } else {
        var q :| q in st && s + root[|t|..] <= q;
        BroughtAlong(root, st, s, t, q);
        x := root + q[|s + root[|t|..]|..];
      }
    }
  }

  /** Whatever an operation is, it leaves the subtree at a root as it was exactly when it spares the root. */
  lemma StepIsolatedExactly(root: Path, st: Store, op: Op)
    ensures Subtree(root, Apply(st, op)) == Subtree(root, st) <==> Spares(root, st, op)
  {
    if Spares(root, st, op) {
      forall x ensures Get(Subtree(root, Apply(st, op)), x) == Get(Subtree(root, st), x) {
        SubtreeGet(root, Apply(st, op), x);
        SubtreeGet(root, st, x);
        ChangesExactly(st, op, x);
        if root <= x {
          SparesKeeps(root, st, op, x);
        }
      }
      SameStore(Subtree(root, Apply(st, op)), Subtree(root, st));
    } else {
      var x := Noticed(root, st, op);
      ChangesExactly(st, op, x);
      SubtreeGet(root, Apply(st, op), x);
      SubtreeGet(root, st, x);
    }
  }

  lemma RedirectedOutside(a: Path, b: Path, op: Op)
    requires Separate(a, b)
    ensures ActsOutside(a, Redirected(a, b, op))
  {
    match op
    case Link(x, y) => RedirectOnce(a, b, y);
    case Rename(x, y) => RedirectOnce(a, b, x); RedirectOnce(a, b, y);
    case _ => RedirectOnce(a, b, op.at);
  }
}
