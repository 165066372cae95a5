/**
  Paths as component lists: parsing at slashes, the stack machine that `.` and `..`
  drive, and the rendering of a stack.  This is the meaning the byte-level cleaner is
  proved against.
 */
module Components {
  import opened CStrings

  type Path = seq<string>

  predicate IsAbsolute(s: string) {
    s != "" && s[0] == '/'
  }

  /** A non-empty run of bytes other than the separator. */
  predicate IsSegment(c: string) {
    c != "" && '/' !in c
  }

  /** A segment that names a directory entry. */
  predicate IsName(c: string) {
    IsSegment(c) && c != "." && c != ".."
  }

  /** A location in the tree: the names that lead to it from the root. */
  predicate IsPath(p: Path) {
    forall i | 0 <= i < |p| :: IsName(p[i])
  }

  predicate AreSegments(cs: seq<string>) {
    forall i | 0 <= i < |cs| :: IsSegment(cs[i])
  }

  // ---------------------------------------------------------------- parsing

  /** The number of bytes before the next separator. */
  function SegmentLength(s: string): (n: nat)
    ensures n <= |s| && '/' !in s[..n] && (n < |s| ==> s[n] == '/')
  {
    if s == "" || s[0] == '/' then 0 else 1 + SegmentLength(s[1..])
  }

  function Parse(s: string): (cs: seq<string>)
    ensures AreSegments(cs)
    decreases |s|
  {
    if s == "" then []
    else if s[0] == '/' then Parse(s[1..])
    else var n := SegmentLength(s); [s[..n]] + Parse(s[n..])
  }

  lemma {:induction false} SegmentLengthIs(s: string, n: nat)
    requires n <= |s| && '/' !in s[..n] && (n < |s| ==> s[n] == '/')
    ensures SegmentLength(s) == n
  {
  }

  /** A string splits at any separator. */
  lemma {:induction false} ParseAppend(a: string, b: string)
    requires b != "" ==> b[0] == '/'
    ensures Parse(a + b) == Parse(a) + Parse(b)
    decreases |a|
  {
    if a == "" {
      assert a + b == b;
    } else if a[0] == '/' {
      assert (a + b)[1..] == a[1..] + b;
      ParseAppend(a[1..], b);
    } else {
      var n := SegmentLength(a);
      assert (a + b)[..n] == a[..n];
      SegmentLengthIs(a + b, n);
      assert (a + b)[n..] == a[n..] + b;
      ParseAppend(a[n..], b);
      assert n > 0;
      assert Parse(a + b) == [a[..n]] + Parse((a + b)[n..]);
    }
  }

  lemma ParseSegment(c: string)
    requires IsSegment(c)
    ensures Parse(c) == [c] && Parse("/" + c) == [c]
  {
    assert c[..|c|] == c;
    SegmentLengthIs(c, |c|);
    assert Parse(c[|c|..]) == [];
    assert ("/" + c)[1..] == c;
  }

  lemma ParseTrailingSlash(s: string)
    ensures Parse(s + "/") == Parse(s)
  {
    ParseAppend(s, "/");
    assert "/"[1..] == "";
  }

  lemma ParseJoined(a: string, b: string)
    ensures Parse(a + "/" + b) == Parse(a) + Parse(b)
  {
    ParseAppend(a, "/" + b);
    assert a + "/" + b == a + ("/" + b);
    assert ("/" + b)[1..] == b;
  }

  // ---------------------------------------------------------------- the stack machine

  /** What one component does to the stack; on a relative path `..` with nothing to pop is pushed. */
  function Step(rooted: bool, stack: Path, c: string): Path {
    if c == "." then stack
    else if c == ".." && stack != [] then stack[..|stack| - 1]
    else if c == ".." && rooted then stack
    else stack + [c]
  }

  function Run(rooted: bool, stack: Path, cs: seq<string>): Path {
    if cs == [] then stack
    else Step(rooted, Run(rooted, stack, cs[..|cs| - 1]), cs[|cs| - 1])
  }

  lemma RunSnoc(rooted: bool, stack: Path, cs: seq<string>, c: string)
    ensures Run(rooted, stack, cs + [c]) == Step(rooted, Run(rooted, stack, cs), c)
  {
  }

  lemma {:induction false} RunAppend(rooted: bool, stack: Path, a: seq<string>, b: seq<string>)
    ensures Run(rooted, stack, a + b) == Run(rooted, Run(rooted, stack, a), b)
  {
    if b == [] {
      assert a + b == a;
    } else {
      var m := |b| - 1;
      RunAppend(rooted, stack, a, b[..m]);
      assert a + b == (a + b[..m]) + [b[m]];
      RunSnoc(rooted, stack, a + b[..m], b[m]);
    }
  }

  /** A stack no further `.` or `..` step would change: names only, but for one leading `..` on a relative path. */
  predicate Settled(rooted: bool, stack: Path) {
    forall i | 0 <= i < |stack| ::
      IsSegment(stack[i]) && stack[i] != "." && (stack[i] == ".." ==> !rooted && i == 0)
  }

  lemma {:induction false} RunSettled(rooted: bool, stack: Path, cs: seq<string>)
    requires Settled(rooted, stack) && AreSegments(cs)
    ensures Settled(rooted, Run(rooted, stack, cs))
  {
    if cs != [] {
      RunSettled(rooted, stack, cs[..|cs| - 1]);
    }
  }

  lemma SettledIsPath(p: Path)
    ensures Settled(true, p) <==> IsPath(p)
  {
  }

  lemma RunIsPath(base: Path, cs: seq<string>)
    requires IsPath(base) && AreSegments(cs)
    ensures IsPath(Run(true, base, cs))
  {
  }

  /** Names only ever push. */
  lemma {:induction false} RunNames(rooted: bool, base: Path, names: Path)
    requires IsPath(names)
    ensures Run(rooted, base, names) == base + names
  {
    if names == [] {
      assert base + names == base;
    } else {
      var m := |names| - 1;
      RunNames(rooted, base, names[..m]);
      assert IsName(names[m]);
      assert base + names == base + names[..m] + [names[m]];
    }
  }

  lemma {:induction false} RunFixed(rooted: bool, stack: Path)
    requires Settled(rooted, stack)
    ensures Run(rooted, [], stack) == stack
  {
    if stack != [] {
      var m := |stack| - 1;
      RunFixed(rooted, stack[..m]);
      assert stack == stack[..m] + [stack[m]];
    }
  }

  // ---------------------------------------------------------------- rendering

  /** Every component behind its own separator. */
  function Slashed(stack: Path): string {
    if stack == [] then ""
    else Slashed(stack[..|stack| - 1]) + "/" + stack[|stack| - 1]
  }

  function Render(rooted: bool, stack: Path): string {
    if stack == [] then (if rooted then "/" else ".")
    else if rooted then Slashed(stack)
    else Slashed(stack)[1..]
  }

  lemma {:induction false} SlashedStart(stack: Path)
    requires stack != []
    ensures IsAbsolute(Slashed(stack))
  {
    var m := |stack| - 1;
    if m > 0 {
      SlashedStart(stack[..m]);
    }
  }

  lemma SlashedSnoc(stack: Path, c: string)
    ensures Slashed(stack + [c]) == Slashed(stack) + "/" + c
  {
  }

  lemma {:induction false} SlashedAppend(a: Path, b: Path)
    ensures Slashed(a + b) == Slashed(a) + Slashed(b)
  {
    if b == [] {
      assert a + b == a;
    } else {
      var m := |b| - 1;
      SlashedAppend(a, b[..m]);
      assert a + b == (a + b[..m]) + [b[m]];
      SlashedSnoc(a + b[..m], b[m]);
    }
  }

  lemma {:induction false} ParseSlashed(stack: Path)
    requires AreSegments(stack)
    ensures Parse(Slashed(stack)) == stack
  {
    if stack != [] {
      var m := |stack| - 1;
      ParseSlashed(stack[..m]);
      ParseJoined(Slashed(stack[..m]), stack[m]);
      ParseSegment(stack[m]);
    }
  }

  /** Parsing undoes rendering; the one relative rendering that is not a stack, `.`, still runs to it. */
  lemma ParseRender(rooted: bool, stack: Path)
    requires AreSegments(stack)
    ensures rooted || stack != [] ==> Parse(Render(rooted, stack)) == stack
    ensures !rooted && stack == [] ==> Parse(Render(rooted, stack)) == ["."]
    ensures Render(rooted, stack) != "" && (IsAbsolute(Render(rooted, stack)) <==> rooted)
  {
    if stack == [] {
      assert "/"[1..] == "";
      ParseSegment(".");
    } else {
      ParseSlashed(stack);
      SlashedStart(stack);
      SlashedHead(stack);
    }
  }

  lemma {:induction false} SlashedHead(stack: Path)
    requires AreSegments(stack) && stack != []
    ensures |Slashed(stack)| >= 2 && Slashed(stack)[1] == stack[0][0] && stack[0][0] != '/'
  {
    var m := |stack| - 1;
    if m > 0 {
      SlashedHead(stack[..m]);
    }
  }

  // ---------------------------------------------------------------- cleaning

  /** The components up to the last one that is not `.`. */
  function TrimDots(cs: seq<string>): seq<string> {
    if cs != [] && cs[|cs| - 1] == "." then TrimDots(cs[..|cs| - 1]) else cs
  }

  /** The last effective component is a `..` that popped, and the stack is still non-empty. */
  predicate EndsInPop(rooted: bool, cs: seq<string>) {
    var effective := TrimDots(cs);
    && Run(rooted, [], cs) != []
    && effective != [] && effective[|effective| - 1] == ".."
    && Run(rooted, [], effective[..|effective| - 1]) != []
  }

  function ComponentsOf(s: string): Path {
    Run(IsAbsolute(s), [], Parse(s))
  }

  /** The cleaned form of a string: its stack rendered, with the separator a last popping `..` leaves behind. */
  function Clean(s: string): string {
    Render(IsAbsolute(s), ComponentsOf(s)) + if EndsInPop(IsAbsolute(s), Parse(s)) then "/" else ""
  }

  predicate Within(rooted: bool, stack: Path, n: nat) {
    |Render(rooted, stack)| < n && |stack| <= PATH_MAX
  }

  /** The stack after every component prefix renders in fewer than n bytes. */
  predicate EveryPrefixFits(rooted: bool, cs: seq<string>, n: nat) {
    forall k | 0 <= k <= |cs| :: Within(rooted, Run(rooted, [], cs[..k]), n)
  }

  predicate CleanFits(s: string, n: nat) {
    EveryPrefixFits(IsAbsolute(s), Parse(s), n)
  }

  lemma FitsSnoc(rooted: bool, cs: seq<string>, c: string, n: nat)
    ensures EveryPrefixFits(rooted, cs + [c], n) <==>
            EveryPrefixFits(rooted, cs, n) && Within(rooted, Run(rooted, [], cs + [c]), n)
  {
    var more := cs + [c];
    assert forall k | 0 <= k <= |cs| :: more[..k] == cs[..k];
    assert more[..|more|] == more;
    if EveryPrefixFits(rooted, more, n) {
      forall k | 0 <= k <= |cs| ensures Within(rooted, Run(rooted, [], cs[..k]), n) {
        assert Within(rooted, Run(rooted, [], more[..k]), n);
      }
      assert Within(rooted, Run(rooted, [], more[..|more|]), n);
    }
  }

  lemma FitsPrefix(rooted: bool, a: seq<string>, b: seq<string>, n: nat)
    requires EveryPrefixFits(rooted, a + b, n)
    ensures EveryPrefixFits(rooted, a, n)
  {
    forall k | 0 <= k <= |a| ensures Within(rooted, Run(rooted, [], a[..k]), n) {
      assert (a + b)[..k] == a[..k];
      assert Within(rooted, Run(rooted, [], (a + b)[..k]), n);
    }
  }

  // ---------------------------------------------------------------- NUL-free strings

  predicate NulFree(cs: seq<string>) {
    forall i | 0 <= i < |cs| :: NUL !in cs[i]
  }

  lemma {:induction false} ParseNulFree(s: string)
    requires NUL !in s
    ensures NulFree(Parse(s))
    decreases |s|
  {
    if s != "" && s[0] == '/' {
      ParseNulFree(s[1..]);
    } else if s != "" {
      ParseNulFree(s[SegmentLength(s)..]);
    }
  }

  lemma {:induction false} RunNulFree(rooted: bool, stack: Path, cs: seq<string>)
    requires NulFree(stack) && NulFree(cs)
    ensures NulFree(Run(rooted, stack, cs))
  {
    if cs != [] {
      RunNulFree(rooted, stack, cs[..|cs| - 1]);
    }
  }

  lemma {:induction false} SlashedNulFree(stack: Path)
    requires NulFree(stack)
    ensures NUL !in Slashed(stack)
  {
    if stack != [] {
      SlashedNulFree(stack[..|stack| - 1]);
    }
  }

  lemma RenderNulFree(rooted: bool, stack: Path)
    requires NulFree(stack)
    ensures NUL !in Render(rooted, stack)
  {
    SlashedNulFree(stack);
  }

  lemma CleanNulFree(s: string)
    requires NUL !in s
    ensures NulFree(ComponentsOf(s)) && NUL !in Clean(s)
  {
    ParseNulFree(s);
    RunNulFree(IsAbsolute(s), [], Parse(s));
    RenderNulFree(IsAbsolute(s), ComponentsOf(s));
  }
}
