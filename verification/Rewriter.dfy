/** From a call's path argument, and its directory descriptor, to the argument handed to libc. */
module Rewriter {
  import opened CStrings
  import opened Components
  import opened CleanerLaws
  import opened Policies
  import opened Cleaner

  const AT_FDCWD: int := -100

  // ---------------------------------------------------------------- what libc answers

  /** The answers of `getcwd` and of `readlink` on `/proc/self/fd/N`; both may fail. */
  datatype Kernel = Kernel(cwd: Option<string>, links: map<int, string>)

  ghost predicate ValidKernel(k: Kernel) {
    && (k.cwd.Some? ==> NUL !in k.cwd.value)
    && (forall fd | fd in k.links :: NUL !in k.links[fd])
  }

  method Deliver(s: string, buf: array<char>)
    requires |s| <= buf.Length
    modifies buf
    ensures buf[..|s|] == s
  {
    forall i | 0 <= i < |s| {
      buf[i] := s[i];
    }
  }

  method RealGetcwd(k: Kernel, buf: array<char>, size: nat) returns (ok: bool)
    requires ValidKernel(k) && size <= buf.Length
    modifies buf
    ensures ok <==> k.cwd.Some? && |k.cwd.value| + 1 <= size
    ensures ok ==> NUL in buf[..] && Text(buf[..]) == k.cwd.value
  {
    ok := k.cwd.Some? && |k.cwd.value| + 1 <= size;
    if ok {
      Deliver(k.cwd.value, buf);
      Terminate(buf, |k.cwd.value|);
    }
  }

  /** Writes at most size bytes and no NUL; returns their number, or -1. */
  method RealReadlink(k: Kernel, fd: int, buf: array<char>, size: nat) returns (n: int)
    requires size <= buf.Length
    modifies buf
    ensures n == if fd !in k.links then -1 else if |k.links[fd]| <= size then |k.links[fd]| else size
    ensures n >= 0 ==> buf[..n] == k.links[fd][..n]
  {
    if fd !in k.links {
      return -1;
    }
    var link := k.links[fd];
    n := if |link| <= size then |link| else size;
    Deliver(link[..n], buf);
  }

  // ---------------------------------------------------------------- specification

  /** The replacement of an absolute argument, if there is one. */
  function AbsoluteRewrite(policy: Policy, arg: Option<string>, n: nat): Option<string> {
    if arg.Some? && IsAbsolute(arg.value) && policy.On? && CleanFits(arg.value, PATH_MAX)
    then Forward(policy, Clean(arg.value), n)
    else None
  }

  /** The path the absolute-only calls hand on. */
  function PathArgument(policy: Policy, arg: string, n: nat): string {
    var hit := AbsoluteRewrite(policy, Some(arg), n);
    if hit.Some? then hit.value else arg
  }

  /** The directory a relative argument starts from, as the interposer learns it. */
  function Base(k: Kernel, dirfd: int): Option<string> {
    if dirfd == AT_FDCWD then
      if k.cwd.Some? && |k.cwd.value| < PATH_MAX then k.cwd else None
    else if dirfd in k.links && |k.links[dirfd]| < PATH_MAX - 1 && IsAbsolute(k.links[dirfd])
    then Some(Clean(k.links[dirfd]))
    else None
  }

  /** The replacement of a relative argument, if there is one. */
  function RelativeRewrite(policy: Policy, k: Kernel, dirfd: int, arg: Option<string>, n: nat): Option<string> {
    if && arg.Some? && !IsAbsolute(arg.value) && policy.On?
       && Base(k, dirfd).Some? && |Base(k, dirfd).value| + 1 + |arg.value| < PATH_MAX
    then Forward(policy, Clean(Base(k, dirfd).value + "/" + arg.value), n)
    else None
  }

  function AnyRewrite(policy: Policy, k: Kernel, dirfd: int, arg: Option<string>, n: nat): Option<string> {
    if arg.Some? && IsAbsolute(arg.value) then AbsoluteRewrite(policy, arg, n)
    else RelativeRewrite(policy, k, dirfd, arg, n)
  }

  /** The descriptor and path an at-call hands on: a replaced relative path no longer needs its descriptor. */
  function AtArgument(policy: Policy, k: Kernel, dirfd: int, arg: string, n: nat): (int, string) {
    var hit := AnyRewrite(policy, k, dirfd, Some(arg), n);
    if hit.None? then (dirfd, arg)
    else (if IsAbsolute(arg) then dirfd else AT_FDCWD, hit.value)
  }

  // ---------------------------------------------------------------- the methods

  /** `join_and_clean_path`: base and path joined by a separator in a PATH_MAX buffer, then cleaned. */
  method JoinAndCleanPath(base: array?<char>, path: array?<char>, dst: array?<char>, dstLen: nat) returns (ok: bool)
    requires base != null ==> NUL in base[..]
    requires path != null ==> NUL in path[..]
    requires dst != null ==> dst != base && dst != path && dstLen <= dst.Length
    modifies dst
    ensures ok <==> && base != null && path != null && dst != null
                    && |Text(base[..])| + 1 + |Text(path[..])| < PATH_MAX
                    && CleanFits(Text(base[..]) + "/" + Text(path[..]), dstLen)
    ensures ok ==> NUL in dst[..] && Text(dst[..]) == Clean(Text(base[..]) + "/" + Text(path[..]))
  {
    hide Clean, CleanFits;
    if base == null || path == null || dst == null {
      return false;
    }
    var joined := new char[PATH_MAX];
    var b := StrLen(base, 0);
    var p := StrLen(path, 0);
    if b + 1 + p >= PATH_MAX {
      return false;
    }
    Join(base, b, path, p, joined);
    ok := CleanPathInto(joined, dst, dstLen);
  }

  /** `snprintf(joined, sizeof(joined), "%s/%s", base, path)` when the result fits. */
  method Join(base: array<char>, b: nat, path: array<char>, p: nat, joined: array<char>)
    requires NUL in base[..] && NUL in path[..] && b == |Text(base[..])| && p == |Text(path[..])|
    requires joined != base && joined != path && b + 1 + p < joined.Length
    modifies joined
    ensures NUL in joined[..] && Text(joined[..]) == Text(base[..]) + "/" + Text(path[..])
  {
    ghost var bs, ps := Text(base[..]), Text(path[..]);
    assert base[..b] == bs && path[..p] == ps;
    hide Text;
    MemCpy(joined, 0, base, 0, b);
    joined[b] := '/';
    assert joined[..b + 1] == joined[..b] + "/" == bs + "/";
    MemCpy(joined, b + 1, path, 0, p);
    assert joined[..b + 1 + p] == bs + "/" + ps;
    Terminate(joined, b + 1 + p);
  }

  /** `rewrite_absolute_path`. */
  method RewriteAbsolutePath(policy: RewritePolicy, pathname: array?<char>, dst: array<char>, dstLen: nat)
    returns (hit: bool)
    requires policy.Valid() && IsArgument(pathname)
    requires dst != pathname && dst != policy.from && dst != policy.to && dstLen <= dst.Length
    modifies dst
    ensures hit ==> NUL in dst[..]
    ensures AbsoluteRewrite(policy.Value(), TextOf(pathname), dstLen) == if hit then Some(Text(dst[..])) else None
  {
    hide Clean, CleanFits, Forward;
    var cleaned := new char[PATH_MAX];
    if pathname == null || pathname[0] != '/' {
      return false;
    }
    if !policy.enabled {
      return false;
    }
    hit := CleanPathInto(pathname, cleaned, cleaned.Length);
    if !hit {
      return;
    }
    hit := policy.SubstitutePrefix(cleaned, dst, dstLen);
  }

  /** The base directory part of `rewrite_relative_path_from_dirfd`. */
  method ReadBase(k: Kernel, dirfd: int, base: array<char>) returns (ok: bool)
    requires ValidKernel(k) && base.Length == PATH_MAX
    modifies base
    ensures ok ==> NUL in base[..]
    ensures Base(k, dirfd) == if ok then Some(Text(base[..])) else None
  {
    hide Clean;
    if dirfd == AT_FDCWD {
      ok := RealGetcwd(k, base, base.Length);
    } else {
      var n := RealReadlink(k, dirfd, base, base.Length - 1);
      if n < 0 || n >= base.Length - 1 {
        return false;
      }
      var resolved := new char[PATH_MAX];
      assert k.links[dirfd][..n] == k.links[dirfd];
      Terminate(base, n);
      if base[0] != '/' {
        return false;
      }
      ShortSourceFits(k.links[dirfd], resolved.Length);
      ok := CleanPathInto(base, resolved, resolved.Length);
      if !ok {
        assert false;  // a link shorter than the buffer always cleans
      } else {
        CopyBuffer(base, resolved);
      }
    }
  }

  /** `rewrite_relative_path_from_dirfd`. */
  method RewriteRelativePathFromDirfd(policy: RewritePolicy, k: Kernel, dirfd: int, pathname: array?<char>,
                                      dst: array<char>, dstLen: nat)
    returns (hit: bool)
    requires policy.Valid() && IsArgument(pathname) && ValidKernel(k)
    requires dst != pathname && dst != policy.from && dst != policy.to && dstLen <= dst.Length
    modifies dst
    ensures hit ==> NUL in dst[..]
    ensures RelativeRewrite(policy.Value(), k, dirfd, TextOf(pathname), dstLen) ==
            if hit then Some(Text(dst[..])) else None
  {
    hide Clean, CleanFits, Forward, Base, Text;
    var base := new char[PATH_MAX];
    var resolved := new char[PATH_MAX];
    if pathname == null || pathname[0] == '/' {
      return false;
    }
    if !policy.enabled {
      return false;
    }
    hit := ReadBase(k, dirfd, base);
    if !hit {
      return;
    }
    ghost var joined := Text(base[..]) + "/" + Text(pathname[..]);
    hit := JoinAndCleanPath(base, pathname, resolved, resolved.Length);
    if !hit {
      if |joined| < PATH_MAX {
        ShortSourceFits(joined, PATH_MAX);
      }
      return;
    }
    hit := policy.SubstitutePrefix(resolved, dst, dstLen);
  }

  /** `rewrite_path_argument`. */
  method RewritePathArgument(policy: RewritePolicy, pathname: array?<char>, buf: array<char>, bufLen: nat)
    returns (r: array?<char>)
    requires policy.Valid() && IsArgument(pathname)
    requires buf != pathname && buf != policy.from && buf != policy.to && bufLen <= buf.Length
    modifies buf
    ensures IsArgument(r)
    ensures var hit := AbsoluteRewrite(policy.Value(), TextOf(pathname), bufLen);
            if hit.Some? then r == buf && TextOf(r) == hit else r == pathname
    ensures pathname != null ==>
              TextOf(r) == Some(PathArgument(policy.Value(), Text(old(pathname[..])), bufLen))
  {
    hide AbsoluteRewrite;
    if pathname == null {
      NullIsNotAbsolute(policy.Value(), bufLen);
      return pathname;
    }
    var hit := RewriteAbsolutePath(policy, pathname, buf, bufLen);
    return if hit then buf else pathname;
  }

  /** `rewrite_cwd_relative_argument`. */
  method RewriteCwdRelativeArgument(policy: RewritePolicy, k: Kernel, pathname: array?<char>,
                                    buf: array<char>, bufLen: nat)
    returns (r: array?<char>)
    requires policy.Valid() && IsArgument(pathname) && ValidKernel(k)
    requires buf != pathname && buf != policy.from && buf != policy.to && bufLen <= buf.Length
    modifies buf
    ensures IsArgument(r)
    ensures var hit := AnyRewrite(policy.Value(), k, AT_FDCWD, TextOf(pathname), bufLen);
            if hit.Some? then r == buf && TextOf(r) == hit else r == pathname
  {
    hide AbsoluteRewrite, RelativeRewrite;
    if pathname == null {
      NullIsNotRewritten(policy.Value(), k, AT_FDCWD, bufLen);
      return pathname;
    }
    if pathname[0] == '/' {
      r := RewritePathArgument(policy, pathname, buf, bufLen);
      return;
    }
    var hit := RewriteRelativePathFromDirfd(policy, k, AT_FDCWD, pathname, buf, bufLen);
    return if hit then buf else pathname;
  }

  lemma NullIsNotAbsolute(policy: Policy, n: nat)
    ensures AbsoluteRewrite(policy, None, n) == None
  {
  }

  lemma NullIsNotRewritten(policy: Policy, k: Kernel, dirfd: int, n: nat)
    ensures AnyRewrite(policy, k, dirfd, None, n) == None
  {
  }

  /** `rewrite_at_argument`, and the same steps written out in `openat`, `mkdirat`, `unlinkat` and their kin. */
  method RewriteAtArgument(policy: RewritePolicy, k: Kernel, dirfd: int, pathname: array?<char>,
                           buf: array<char>, bufLen: nat)
    returns (r: array?<char>, dirfd': int)
    requires policy.Valid() && IsArgument(pathname) && ValidKernel(k)
    requires buf != pathname && buf != policy.from && buf != policy.to && bufLen <= buf.Length
    modifies buf
    ensures IsArgument(r)
    ensures r == if AnyRewrite(policy.Value(), k, dirfd, TextOf(pathname), bufLen).Some? then buf else pathname
    ensures if pathname == null then dirfd' == dirfd && r == null
            else TextOf(r).Some? &&
                 (dirfd', TextOf(r).value) ==
                   AtArgument(policy.Value(), k, dirfd, Text(old(pathname[..])), bufLen)
  {
    hide AbsoluteRewrite, RelativeRewrite;
    dirfd' := dirfd;
    if pathname == null {
      NullIsNotRewritten(policy.Value(), k, dirfd, bufLen);
      return pathname, dirfd';
    }
    if pathname[0] == '/' {
      r := RewritePathArgument(policy, pathname, buf, bufLen);
      return;
    }
    var hit := RewriteRelativePathFromDirfd(policy, k, dirfd, pathname, buf, bufLen);
    if hit {
      return buf, AT_FDCWD;
    }
    r := pathname;
  }

  /** `linkat` and `renameat` up to their call of libc: each path with its own descriptor and buffer. */
  method RewriteTwoAtArguments(policy: RewritePolicy, k: Kernel,
                               olddirfd: int, oldpath: array?<char>, newdirfd: int, newpath: array?<char>,
                               oldBuf: array<char>, newBuf: array<char>)
    returns (effectiveOld: array?<char>, olddirfd': int, effectiveNew: array?<char>, newdirfd': int)
    requires policy.Valid() && IsArgument(oldpath) && IsArgument(newpath) && ValidKernel(k)
    requires {oldBuf, newBuf} !! {oldpath, newpath, policy.from, policy.to} && oldBuf != newBuf
    requires oldBuf.Length == newBuf.Length == PATH_MAX
    modifies oldBuf, newBuf
    ensures IsArgument(effectiveOld) && IsArgument(effectiveNew)
    ensures oldpath == null ==> effectiveOld == null && olddirfd' == olddirfd
    ensures newpath == null ==> effectiveNew == null && newdirfd' == newdirfd
    ensures oldpath != null ==>
              TextOf(effectiveOld).Some? &&
              (olddirfd', TextOf(effectiveOld).value) ==
                AtArgument(policy.Value(), k, olddirfd, Text(oldpath[..]), PATH_MAX)
    ensures newpath != null ==>
              TextOf(effectiveNew).Some? &&
              (newdirfd', TextOf(effectiveNew).value) ==
                AtArgument(policy.Value(), k, newdirfd, Text(newpath[..]), PATH_MAX)
  {
    hide AnyRewrite, AtArgument, Text;
    ghost var value := policy.Value();
    effectiveOld, olddirfd' := RewriteAtArgument(policy, k, olddirfd, oldpath, oldBuf, oldBuf.Length);
    ghost var first := TextOf(effectiveOld);
    assert policy.Valid() && policy.Value() == value;
    effectiveNew, newdirfd' := RewriteAtArgument(policy, k, newdirfd, newpath, newBuf, newBuf.Length);
    assert policy.Valid() && policy.Value() == value;
    assert TextOf(effectiveOld) == first;
  }
}
