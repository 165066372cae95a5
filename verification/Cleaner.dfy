/**
  The in-place path cleaner: one pass over the source bytes, writing into a bounded
  buffer and rolling `out` back to a remembered segment start on `..`.
 */
module Cleaner {
  import opened CStrings
  import opened Components

  /** What the buffer holds while the stack is `stack`; `open` is the separator a pop left behind. */
  function Written(rooted: bool, stack: Path, open: bool): string {
    (if stack == [] then (if rooted then "/" else "") else Render(rooted, stack)) +
    (if open then "/" else "")
  }

  /** Where each segment of the stack starts in the buffer. */
  function Starts(rooted: bool, stack: Path): (starts: seq<nat>)
    ensures |starts| == |stack|
  {
    if stack == [] then []
    else
      var below := stack[..|stack| - 1];
      Starts(rooted, below) + [|Slashed(below)| + if rooted then 1 else 0]
  }

  /** A segment's bytes stand at its start, and the start is behind the segment's separator. */
  lemma {:induction false} StartsAreSegmentStarts(rooted: bool, stack: Path, k: nat)
    requires k < |stack| && AreSegments(stack)
    ensures var at, text := Starts(rooted, stack)[k], Render(rooted, stack);
            && at + |stack[k]| <= |text| && text[at..at + |stack[k]|] == stack[k]
            && (if at == 0 then k == 0 && !rooted else text[at - 1] == '/')
  {
    var before, c, after := stack[..k], stack[k], stack[k + 1..];
    StartsAt(rooted, stack, k);
    assert stack == before + [c] + after;
    SlashedAppend(before + [c], after);
    SlashedSnoc(before, c);
    var head := Slashed(before) + "/";
    assert Slashed(stack) == head + c + Slashed(after);
    if k == 0 {
      assert Slashed(before) == "";
    } else {
      SlashedStart(before);
    }
    hide Slashed, Starts;
    assert Slashed(stack)[|head|..|head| + |c|] == c;
    if !rooted {
      assert Slashed(stack)[1..] == head[1..] + c + Slashed(after);
      assert Slashed(stack)[1..][|head| - 1..|head| - 1 + |c|] == c;
    }
  }

  /** Starts increase strictly: the next segment starts behind this one and its separator. */
  lemma StartsIncrease(rooted: bool, stack: Path, k: nat)
    requires k + 1 < |stack|
    ensures Starts(rooted, stack)[k + 1] == Starts(rooted, stack)[k] + |stack[k]| + 1
  {
  }

  lemma StartsSnoc(rooted: bool, stack: Path, c: string)
    ensures Starts(rooted, stack + [c]) == Starts(rooted, stack) + [|Slashed(stack)| + if rooted then 1 else 0]
  {
  }

  lemma {:induction false} StartsAt(rooted: bool, stack: Path, k: nat)
    requires k < |stack|
    ensures Starts(rooted, stack)[k] == |Slashed(stack[..k])| + if rooted then 1 else 0
  {
    if k < |stack| - 1 {
      StartsAt(rooted, stack[..|stack| - 1], k);
      assert stack[..|stack| - 1][..k] == stack[..k];
    }
  }

  /** The separator is open after a step exactly when the step popped and left something. */
  predicate OpenAfter(stack: Path, open: bool, c: string) {
    if c == "." then open else c == ".." && |stack| > 1
  }

  lemma EndsInPopSnoc(rooted: bool, cs: seq<string>, c: string)
    ensures EndsInPop(rooted, cs + [c]) <==>
            OpenAfter(Run(rooted, [], cs), EndsInPop(rooted, cs), c)
  {
  }

  /** Popping truncates the buffer at the start of the last segment. */
  lemma WrittenPop(rooted: bool, stack: Path, open: bool)
    requires stack != [] && AreSegments(stack)
    ensures var m := |stack| - 1;
            var at := Starts(rooted, stack)[m];
            && at <= |Written(rooted, stack, open)|
            && Written(rooted, stack, open)[..at] == Written(rooted, stack[..m], m > 0)
            && (at == 0 ==> !rooted)
            && |Render(rooted, stack[..m])| <= |Render(rooted, stack)|
  {
    var m := |stack| - 1;
    var below, c := stack[..m], stack[m];
    assert stack == below + [c];
    RenderPush(rooted, below, c);
    assert m == 0 ==> Slashed(below) == "";
    hide Slashed;
    assert Written(rooted, stack, open)[..|Lead(rooted, below)|] == Lead(rooted, below);
  }

  /** The separator a push writes first, unless the buffer is empty or already ends in one. */
  function Gap(w: string): string {
    if w != "" && w[|w| - 1] != '/' then "/" else ""
  }

  lemma SlashedEnd(stack: Path)
    requires stack != [] && AreSegments(stack)
    ensures var text := Slashed(stack); |text| >= 2 && text[0] == '/' && text[|text| - 1] != '/'
  {
  }

  /** The rendering up to where the next segment goes. */
  function Lead(rooted: bool, stack: Path): string {
    if rooted then Slashed(stack) + "/" else if stack == [] then "" else Slashed(stack)[1..] + "/"
  }

  lemma RenderPush(rooted: bool, stack: Path, c: string)
    ensures Render(rooted, stack + [c]) == Lead(rooted, stack) + c
    ensures Written(rooted, stack + [c], false) == Render(rooted, stack + [c])
    ensures |Lead(rooted, stack)| == |Slashed(stack)| + if rooted then 1 else 0
  {
  }

  lemma WrittenGap(rooted: bool, stack: Path, open: bool)
    requires AreSegments(stack) && (open ==> stack != [])
    ensures var w := Written(rooted, stack, open); w + Gap(w) == Lead(rooted, stack)
  {
  }

  /** The component is pushed: neither `.`, nor a `..` that pops or is dropped at the root. */
  predicate Pushes(rooted: bool, stack: Path, c: string) {
    c != "." && !(c == ".." && (stack != [] || rooted))
  }

  lemma FitsFirst(rooted: bool, cs: seq<string>, n: nat)
    ensures EveryPrefixFits(rooted, cs, n) ==> n >= 2
  {
    if EveryPrefixFits(rooted, cs, n) {
      assert Within(rooted, Run(rooted, [], cs[..0]), n);
    }
  }

  /** The tables the cleaner keeps while it runs: the buffer up to out and the remembered segment starts. */
  ghost predicate Holds(dst: array<char>, out: nat, segStarts: array<nat>, segCount: nat,
                        absolute: bool, stack: Path, open: bool)
    reads dst, segStarts
  {
    && out <= dst.Length && segStarts.Length == PATH_MAX
    && AreSegments(stack) && (open ==> stack != [])
    && segCount == |stack| <= PATH_MAX
    && segStarts[..segCount] == Starts(absolute, stack)
    && dst[..out] == Written(absolute, stack, open)
  }

  lemma HoldsMeans(dst: array<char>, out: nat, segStarts: array<nat>, segCount: nat,
                   absolute: bool, stack: Path, open: bool)
    requires Holds(dst, out, segStarts, segCount, absolute, stack, open)
    ensures out <= dst.Length && segStarts.Length == PATH_MAX == 4096
    ensures AreSegments(stack) && (open ==> stack != []) && segCount == |stack| <= PATH_MAX
    ensures segStarts[..segCount] == Starts(absolute, stack) && dst[..out] == Written(absolute, stack, open)
  {
  }

  lemma HoldsIf(dst: array<char>, out: nat, segStarts: array<nat>, segCount: nat,
                absolute: bool, stack: Path, open: bool)
    requires out <= dst.Length && segStarts.Length == PATH_MAX
    requires AreSegments(stack) && (open ==> stack != []) && segCount == |stack| <= PATH_MAX
    requires segStarts[..segCount] == Starts(absolute, stack) && dst[..out] == Written(absolute, stack, open)
    ensures Holds(dst, out, segStarts, segCount, absolute, stack, open)
  {
  }

  /** What a push must write, and when it fits. */
  lemma PushMeans(rooted: bool, stack: Path, open: bool, c: string, n: nat)
    requires AreSegments(stack) && IsSegment(c) && (open ==> stack != [])
    ensures var w := Written(rooted, stack, open);
            && AreSegments(stack + [c])
            && Written(rooted, stack + [c], false) == w + Gap(w) + c
            && Starts(rooted, stack + [c]) == Starts(rooted, stack) + [|w + Gap(w)|]
            && (Within(rooted, stack + [c], n) <==> |w + Gap(w) + c| < n && |stack| < PATH_MAX)
  {
    hide Slashed, Starts, Written, Render, Lead, Gap;
    WrittenGap(rooted, stack, open);
    RenderPush(rooted, stack, c);
    StartsSnoc(rooted, stack, c);
  }

  method PutSeparator(dst: array<char>, dstLen: nat, out: nat) returns (ok: bool, out': nat)
    requires out < dstLen <= dst.Length
    modifies dst
    ensures ok <==> out + |Gap(old(dst[..out]))| < dstLen
    ensures ok ==> out' < dstLen && dst[..out'] == old(dst[..out] + Gap(dst[..out]))
  {
    if out != 0 && dst[out - 1] != '/' {
      if out + 1 >= dstLen {
        return false, out;
      }
      dst[out] := '/';
      return true, out + 1;
    }
    return true, out;
  }

  /** The cleaner's push: a separator if one is missing, the segment's start, then its bytes. */
  method PushSegment(src: array<char>, start: nat, segLen: nat, dst: array<char>, dstLen: nat,
                     segStarts: array<nat>, segCount: nat, out: nat,
                     ghost absolute: bool, ghost stack: Path, ghost open: bool)
    returns (ok: bool, out': nat)
    requires src != dst && start + segLen <= src.Length && dstLen <= dst.Length
    requires IsSegment(src[start..start + segLen])
    requires out < dstLen && Holds(dst, out, segStarts, segCount, absolute, stack, open)
    modifies dst, segStarts
    ensures ok <==> Within(absolute, stack + [src[start..start + segLen]], dstLen)
    ensures ok ==> out' < dstLen && Holds(dst, out', segStarts, segCount + 1, absolute,
                                          stack + [src[start..start + segLen]], false)
  {
    hide *;
    ghost var c, w := src[start..start + segLen], dst[..out];
    HoldsMeans(dst, out, segStarts, segCount, absolute, stack, open);
    PushMeans(absolute, stack, open, c, dstLen);
    if segCount >= PATH_MAX {
      return false, out;
    }
    ok, out' := PutSeparator(dst, dstLen, out);
    if !ok {
      return;
    }
    segStarts[segCount] := out';
    if out' + segLen >= dstLen {
      return false, out';
    }
    MemCpy(dst, out', src, start, segLen);
    out' := out' + segLen;
    assert segStarts[..segCount + 1] == Starts(absolute, stack) + [|w + Gap(w)|];
    HoldsIf(dst, out', segStarts, segCount + 1, absolute, stack + [c], false);
  }

  /** The cleaner's pop: forget the last segment's start and continue writing there. */
  method PopSegment(dst: array<char>, segStarts: array<nat>, segCount: nat, out: nat,
                    absolute: bool, ghost stack: Path, ghost open: bool)
    returns (segCount': nat, out': nat)
    requires out < dst.Length && Holds(dst, out, segStarts, segCount, absolute, stack, open) && segCount > 0
    modifies dst
    ensures segCount' == segCount - 1 && out' <= out
    ensures Holds(dst, out', segStarts, segCount', absolute, stack[..segCount'], segCount' > 0)
  {
    WrittenPop(absolute, stack, open);
    segCount' := segCount - 1;
    out' := segStarts[segCount'];
    assert segStarts[..segCount'] == segStarts[..segCount][..segCount'];
    assert Starts(absolute, stack[..segCount']) == Starts(absolute, stack)[..segCount'];
    assert dst[..out'] == dst[..out][..out'];
    if out' == 0 && absolute {
      assert false;  // the first segment of an absolute path starts behind the root separator
    }
  }

  /** The segment is n dots long and nothing else, for the n of `.` or `..`. */
  method IsDots(src: array<char>, start: nat, segLen: nat, n: nat) returns (b: bool)
    requires start + segLen <= src.Length && 1 <= n <= 2
    ensures b <==> src[start..start + segLen] == if n == 1 then "." else ".."
  {
    b := segLen == n && src[start] == '.' && (n == 1 || src[start + 1] == '.');
    assert segLen > 0 ==> src[start..start + segLen][0] == src[start];
    assert segLen > 1 ==> src[start..start + segLen][1] == src[start + 1];
  }

  lemma StepCases(rooted: bool, stack: Path, open: bool, c: string)
    ensures var stack', open' := Step(rooted, stack, c), OpenAfter(stack, open, c);
            if c == "." then !Pushes(rooted, stack, c) && stack' == stack && open' == open
            else if c == ".." && stack != [] then
              !Pushes(rooted, stack, c) && stack' == stack[..|stack| - 1] && (open' <==> |stack| > 1)
            else if c == ".." && rooted then !Pushes(rooted, stack, c) && stack' == stack && !open'
            else Pushes(rooted, stack, c) && stack' == stack + [c] && !open'
  {
  }

  /** One component of the source: `.` is skipped, `..` rolls back, anything else is pushed. */
  method TakeSegment(src: array<char>, start: nat, segLen: nat, dst: array<char>, dstLen: nat,
                     segStarts: array<nat>, segCount: nat, out: nat,
                     absolute: bool, ghost stack: Path, ghost open: bool)
    returns (ok: bool, segCount': nat, out': nat)
    requires src != dst && start + segLen <= src.Length && dstLen <= dst.Length
    requires IsSegment(src[start..start + segLen])
    requires out < dstLen && Holds(dst, out, segStarts, segCount, absolute, stack, open)
    modifies dst, segStarts
    ensures var c := src[start..start + segLen];
            && (ok <==> (Pushes(absolute, stack, c) ==> Within(absolute, stack + [c], dstLen)))
            && (ok ==> out' < dstLen && Holds(dst, out', segStarts, segCount', absolute,
                                              Step(absolute, stack, c), OpenAfter(stack, open, c)))
  {
    hide *;
    HoldsMeans(dst, out, segStarts, segCount, absolute, stack, open);
    StepCases(absolute, stack, open, src[start..start + segLen]);
    ok, segCount', out' := true, segCount, out;
    var dot := IsDots(src, start, segLen, 1);
    if dot {
      return;
    }
    var dotDot := IsDots(src, start, segLen, 2);
    if dotDot {
      if segCount > 0 {
        segCount', out' := PopSegment(dst, segStarts, segCount, out, absolute, stack, open);
        return;
      }
      if absolute {
        return;
      }
    }
    ok, out' := PushSegment(src, start, segLen, dst, dstLen, segStarts, segCount, out, absolute, stack, open);
    segCount' := segCount + 1;
  }

  method SkipSlashes(src: array<char>, i: nat) returns (j: nat)
    requires NUL in src[..] && i <= |Text(src[..])|
    ensures var s := Text(src[..]);
            && i <= j <= |s| && src[j] != '/'
            && Parse(s[j..]) == Parse(s[i..])
  {
    ghost var s := Text(src[..]);
    j := i;
    while src[j] == '/'
      invariant i <= j <= |s| && Parse(s[j..]) == Parse(s[i..])
      decreases |s| - j
    {
      assert src[j] == s[j];
      assert s[j..][1..] == s[j + 1..];
      j := j + 1;
    }
  }

  method SegmentEnd(src: array<char>, start: nat) returns (end: nat)
    requires NUL in src[..] && start < |Text(src[..])| && src[start] != '/'
    ensures var s := Text(src[..]);
            && start < end <= |s| && src[start..end] == s[start..end]
            && IsSegment(src[start..end])
            && Parse(s[start..]) == [s[start..end]] + Parse(s[end..])
  {
    hide Parse;
    ghost var s := Text(src[..]);
    assert s == src[..|s|];
    hide Text;
    end := start + 1;
    while src[end] != NUL && src[end] != '/'
      invariant start < end <= |s| && s == src[..|s|]
      invariant forall k | start <= k < end :: s[k] != '/'
      decreases |s| - end
    {
      end := end + 1;
    }
    ParseStep(s, start, end);
    TextSlice(src[..], start, end);
    assert src[..][start..end] == src[start..end];
  }

  lemma ParseStep(s: string, start: nat, end: nat)
    requires start < end <= |s| && (end < |s| ==> s[end] == '/')
    requires forall k | start <= k < end :: s[k] != '/'
    ensures IsSegment(s[start..end]) && Parse(s[start..]) == [s[start..end]] + Parse(s[end..])
  {
    var t := s[start..];
    assert t[..end - start] == s[start..end] && t[end - start..] == s[end..];
    SegmentLengthIs(t, end - start);
  }

  /** How far the cleaner has come: the components done and what the loop promises about them. */
  ghost predicate Progress(s: string, i: nat, done: seq<string>, n: nat) {
    && i <= |s| && Parse(s) == done + Parse(s[i..]) && AreSegments(done)
    && if n < 2 then !IsAbsolute(s) && Run(false, [], done) == []
       else EveryPrefixFits(IsAbsolute(s), done, n)
  }

  lemma ProgressStep(s: string, i: nat, start: nat, end: nat, done: seq<string>, n: nat)
    requires Progress(s, i, done, n) && i <= start <= end <= |s| && IsSegment(s[start..end])
    requires Parse(s[i..]) == Parse(s[start..]) == [s[start..end]] + Parse(s[end..])
    ensures var rooted, c, stack := IsAbsolute(s), s[start..end], Run(IsAbsolute(s), [], done);
            && Run(rooted, [], done + [c]) == Step(rooted, stack, c)
            && EndsInPop(rooted, done + [c]) == OpenAfter(stack, EndsInPop(rooted, done), c)
            && (if Pushes(rooted, stack, c) ==> Within(rooted, stack + [c], n)
                then Progress(s, end, done + [c], n) else !CleanFits(s, n))
  {
    hide Run, EndsInPop, OpenAfter, Step, Within, EveryPrefixFits, Parse, Pushes;
    var rooted, c, stack := IsAbsolute(s), s[start..end], Run(IsAbsolute(s), [], done);
    RunSnoc(rooted, [], done, c);
    EndsInPopSnoc(rooted, done, c);
    var rest := Parse(s[end..]);
    assert done + ([c] + rest) == done + [c] + rest;
    FitsStep(rooted, done, c, rest, n);
  }

  lemma FitsStep(rooted: bool, done: seq<string>, c: string, rest: seq<string>, n: nat)
    requires AreSegments(done) && IsSegment(c)
    requires if n < 2 then !rooted && Run(false, [], done) == [] else EveryPrefixFits(rooted, done, n)
    ensures var stack := Run(rooted, [], done);
            if Pushes(rooted, stack, c) ==> Within(rooted, stack + [c], n)
            then if n < 2 then Run(false, [], done + [c]) == [] else EveryPrefixFits(rooted, done + [c], n)
            else !EveryPrefixFits(rooted, done + [c] + rest, n)
  {
    hide Slashed, Render;
    var stack := Run(rooted, [], done);
    RunSnoc(rooted, [], done, c);
    FitsSnoc(rooted, done, c, n);
    FitsFirst(rooted, done + [c] + rest, n);
    if EveryPrefixFits(rooted, done + [c] + rest, n) {
      FitsPrefix(rooted, done + [c], rest, n);
    }
    RunSettled(rooted, [], done);
    if n < 2 {
      if Pushes(rooted, stack, c) {
        RenderPush(rooted, stack, c);
      }
    } else if !Pushes(rooted, stack, c) {
      assert Within(rooted, Run(rooted, [], done[..|done|]), n) && done[..|done|] == done;
      if stack != [] {
        WrittenPop(rooted, stack, false);
      }
    }
  }

  lemma ProgressSkip(s: string, i: nat, start: nat, done: seq<string>, n: nat)
    requires Progress(s, i, done, n) && i <= start <= |s| && Parse(s[start..]) == Parse(s[i..])
    ensures Progress(s, start, done, n)
  {
  }

  lemma ProgressStart(s: string, n: nat)
    requires n >= 2 || !IsAbsolute(s)
    ensures Progress(s, 0, [], n)
    ensures Run(IsAbsolute(s), [], []) == [] && !EndsInPop(IsAbsolute(s), [])
  {
  }

  lemma HoldsStart(dst: array<char>, out: nat, segStarts: array<nat>, absolute: bool)
    requires out <= dst.Length && segStarts.Length == PATH_MAX
    requires out == (if absolute then 1 else 0) && (absolute ==> dst[0] == '/')
    ensures Holds(dst, out, segStarts, 0, absolute, [], false)
  {
  }

  /** At the end of the source the buffer is the cleaned form, but for a relative path that came to nothing. */
  lemma ProgressEnd(dst: array<char>, out: nat, segStarts: array<nat>, segCount: nat,
                    s: string, i: nat, done: seq<string>, n: nat)
    requires i == |s| && Progress(s, i, done, n)
    requires Holds(dst, out, segStarts, segCount, IsAbsolute(s),
                   Run(IsAbsolute(s), [], done), EndsInPop(IsAbsolute(s), done))
    ensures n >= 2 ==> CleanFits(s, n)
    ensures if out == 0 then !IsAbsolute(s) && Clean(s) == "." else dst[..out] == Clean(s)
    ensures n < 2 ==> out == 0
  {
    assert s[i..] == "" && Parse(s) == done;
  }

  lemma FitsNeedsTwo(s: string, n: nat)
    ensures CleanFits(s, n) ==> n >= 2
  {
    FitsFirst(IsAbsolute(s), Parse(s), n);
  }

  lemma AbsoluteByte(src: array<char>)
    requires NUL in src[..]
    ensures src[0] == '/' <==> IsAbsolute(Text(src[..]))
  {
  }

  /**
    `clean_path_into`: succeeds exactly when the stack after every component prefix
    renders in fewer than dstLen bytes, and then leaves the cleaned form in dst.
   */
  method CleanPathInto(src: array?<char>, dst: array?<char>, dstLen: nat) returns (ok: bool)
    requires src != null ==> NUL in src[..]
    requires dst != null ==> dst != src && dstLen <= dst.Length
    modifies dst
    ensures ok <==> src != null && dst != null && CleanFits(Text(src[..]), dstLen)
    ensures ok ==> NUL in dst[..] && Text(dst[..]) == Clean(Text(src[..]))
  {
    hide *;
    if src == null || dst == null {
      return false;
    }
    ghost var s := Text(src[..]);
    FitsNeedsTwo(s, dstLen);
    if dstLen == 0 {
      return false;
    }
    var segStarts := new nat[PATH_MAX];
    var segCount: nat, out: nat, i: nat := 0, 0, 0;
    var absolute := src[0] == '/';
    AbsoluteByte(src);
    if absolute {
      if dstLen < 2 {
        return false;
      }
      dst[out] := '/';
      out := out + 1;
    }

    ghost var done: seq<string>, stack: Path, open := [], [], false;
    ProgressStart(s, dstLen);
    HoldsStart(dst, out, segStarts, absolute);
    while src[i] != NUL
      invariant Text(src[..]) == s && i <= |s| && Progress(s, i, done, dstLen)
      invariant stack == Run(absolute, [], done) && open == EndsInPop(absolute, done)
      invariant out < dstLen && Holds(dst, out, segStarts, segCount, absolute, stack, open)
      decreases |s| - i
    {
      var start := SkipSlashes(src, i);
      if src[start] == NUL {
        ProgressSkip(s, i, start, done, dstLen);
        i := start;
        break;
      }
      var end := SegmentEnd(src, start);
      ghost var c := src[start..end];
      ProgressStep(s, i, start, end, done, dstLen);
      ok, segCount, out := TakeSegment(src, start, end - start, dst, dstLen, segStarts, segCount, out,
                                       absolute, stack, open);
      if !ok {
        return;
      }
      i, done := end, done + [c];
      stack, open := Step(absolute, stack, c), OpenAfter(stack, open, c);
    }

    ProgressEnd(dst, out, segStarts, segCount, s, i, done, dstLen);
    if out == 0 {
      if dstLen < 2 {
        return false;
      }
      if absolute {
        assert false;  // the root separator is never rolled back
      } else {
        dst[out] := '.';
        out := out + 1;
        assert dst[..out] == ".";
      }
    }
    CleanNulFree(s);
    Terminate(dst, out);
    ok := true;
  }
}
