/** Where the payload of a symbolic link points once link and payload went through the interposer. */
module Symlinks {
  import opened CStrings
  import opened Components
  import opened Mapping
  import opened Policies
  import opened Rewriter
  import opened Locations
  import opened Walks
  import opened WorkingDirectory

  /** `symlinkat` up to its call of libc; `symlink` is the same from AT_FDCWD. */
  method SymlinkAt(policy: RewritePolicy, k: Kernel, target: array?<char>, newdirfd: int, linkpath: array?<char>,
                   targetBuf: array<char>, linkBuf: array<char>)
    returns (effectiveTarget: array?<char>, dirfd': int, effectiveLinkpath: array?<char>)
    requires policy.Valid() && IsArgument(target) && IsArgument(linkpath) && ValidKernel(k)
    requires {targetBuf, linkBuf} !! {target, linkpath, policy.from, policy.to} && targetBuf != linkBuf
    requires targetBuf.Length == linkBuf.Length == PATH_MAX
    modifies targetBuf, linkBuf
    ensures IsArgument(effectiveTarget) && IsArgument(effectiveLinkpath)
    ensures effectiveTarget == null <==> target == null
    ensures linkpath == null ==> effectiveLinkpath == null && dirfd' == newdirfd
    ensures target != null ==>
              TextOf(effectiveTarget) == Some(PathArgument(policy.Value(), Text(target[..]), PATH_MAX))
    ensures linkpath != null ==>
              TextOf(effectiveLinkpath).Some? &&
              (dirfd', TextOf(effectiveLinkpath).value) ==
                AtArgument(policy.Value(), k, newdirfd, Text(linkpath[..]), PATH_MAX)
  {
    hide AbsoluteRewrite, AnyRewrite, AtArgument, Text;
    ghost var value := policy.Value();
    effectiveTarget := target;
    effectiveLinkpath, dirfd' := RewriteAtArgument(policy, k, newdirfd, linkpath, linkBuf, linkBuf.Length);
    assert policy.Valid() && policy.Value() == value;
    ghost var link := TextOf(effectiveLinkpath);
    if target != null {
      RelativeNotAbsolute(value, Text(target[..]));
      FirstByte(target);
      if target[0] == '/' {
        effectiveTarget := RewritePathArgument(policy, target, targetBuf, targetBuf.Length);
      }
    }
    assert TextOf(effectiveLinkpath) == link;
  }

  lemma RelativeNotAbsolute(policy: Policy, target: string)
    ensures !IsAbsolute(target) ==> AbsoluteRewrite(policy, Some(target), PATH_MAX) == None
  {
  }

  lemma FirstByte(p: array<char>)
    requires NUL in p[..]
    ensures p[0] == '/' <==> IsAbsolute(Text(p[..]))
  {
  }

  /** What a link at a location points to: its payload resolved from its directory. */
  function PointsTo(link: Path, payload: string): Path
    requires link != []
  {
    Resolve(link[..|link| - 1], payload)
  }

  /** An absolute payload points to the image of what it names exactly when it fits, or there is nothing to map. */
  lemma AbsolutePayload(policy: Policy, link: Path, target: string)
    requires Usable(policy) && IsAbsolute(target) && link != [] && Mapped(policy, link) != []
    ensures PointsTo(Mapped(policy, link), PathArgument(policy, target, PATH_MAX)) ==
            Mapped(policy, PointsTo(link, target)) <==>
            || ResolutionFits(policy, At([]), AT_FDCWD, target)
            || (policy.On? && Parse(policy.from) == Parse(policy.to))
  {
    hide Parse, CleanFits, Clean, Forward;
    AtCallMeaning(policy, At([]), AT_FDCWD, target);
    ChdirKeepsDescriptor(policy, [], target);
    if AbsoluteRewrite(policy, Some(target), PATH_MAX).Some? {
      Contained(policy, At([]), AT_FDCWD, target, PATH_MAX, []);
    }
  }

  /** A relative payload that stays under the source root points, untouched, to the image of what it names. */
  lemma RelativePayload(a: Path, b: Path, link: Path, payload: string)
    requires a != [] && !IsAbsolute(payload)
    requires a < link && StaysUnder(a, link[..|link| - 1], Parse(payload))
    ensures Redirect(a, b, link) != []
    ensures PointsTo(Redirect(a, b, link), payload) == Redirect(a, b, PointsTo(link, payload))
  {
    var rest := link[|a|..];
    assert link == a + rest;
    var inner := rest[..|rest| - 1];
    assert link[..|link| - 1] == a + inner;
    assert (b + rest)[..|b + rest| - 1] == b + inner;
    FrameLaw(a, b, inner, Parse(payload));
  }

  /** A payload resolved from the link's directory is the payload behind `..` resolved from the link. */
  lemma PointsToFromLink(link: Path, payload: string)
    requires link != [] && !IsAbsolute(payload)
    ensures !IsAbsolute("../" + payload) && PointsTo(link, payload) == Resolve(link, "../" + payload)
  {
    var cs := Parse(payload);
    ParseSegment("..");
    ParseJoined("..", payload);
    assert ".." + "/" + payload == "../" + payload;
    assert Parse("../" + payload) == [".."] + cs;
    RunAppend(true, link, [".."], cs);
    RunSnoc(true, link, [], "..");
    assert [] + [".."] == [".."];
  }

  /**
    An untouched relative payload points to the image of what it names exactly when the walk from the
    link is followed and the place it really points to is outside the real source tree.
   */
  lemma RelativePayloadExactly(a: Path, b: Path, link: Path, payload: string)
    requires Separate(a, b) && !IsAbsolute(payload) && link != []
    ensures Redirect(a, b, link) != []
    ensures PointsTo(Redirect(a, b, link), payload) == Redirect(a, b, PointsTo(link, payload)) <==>
            Follows(a, b, link, "../" + payload) && !(a <= PointsTo(Redirect(a, b, link), payload))
  {
    assert Redirect(a, b, link) != [];
    PointsToFromLink(link, payload);
    PointsToFromLink(Redirect(a, b, link), payload);
    UntouchedExactly(a, b, link, "../" + payload);
  }
}
