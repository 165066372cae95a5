/** A process under the interposer: `chdir` and `getcwd` as they change it, against the run-level specification. */
module Processes {
  import opened CStrings
  import opened Components
  import opened Policies
  import opened Rewriter
  import opened Locations
  import opened WorkingDirectory

  class Process {
    var cwd: Path
    const policy: RewritePolicy

    ghost predicate Valid()
      reads this, policy, policy.from, policy.to
    {
      policy.Valid() && IsPath(cwd) && NulFree(cwd)
    }

    constructor (cwd: Path, policy: RewritePolicy)
      requires policy.Valid() && IsPath(cwd) && NulFree(cwd)
      ensures Valid() && this.cwd == cwd && this.policy == policy
    {
      this.cwd, this.policy := cwd, policy;
    }

    lemma AnswersAreValid()
      requires Valid()
      ensures ValidKernel(Answers(At(cwd)))
    {
      RenderNulFree(true, cwd);
    }

    /** `real_chdir` in the tree whose directories are dirs. */
    method RealChdir(path: array?<char>, dirs: set<Path>) returns (rc: int)
      requires Valid() && IsArgument(path)
      modifies this`cwd
      ensures Valid()
      ensures cwd == if path == null then old(cwd) else KernelChdir(old(cwd), Text(path[..]), dirs)
      ensures rc == 0 <==> path != null && Text(path[..]) != "" && Resolve(old(cwd), Text(path[..])) in dirs
    {
      if path == null {
        return -1;
      }
      var text := Text(path[..]);
      if text == "" || Resolve(cwd, text) !in dirs {
        return -1;
      }
      ParseNulFree(text);
      NamedIsPath(At(cwd), AT_FDCWD, text);
      RunNulFree(true, if IsAbsolute(text) then [] else cwd, Parse(text));
      cwd := Resolve(cwd, text);
      return 0;
    }

    /** `chdir`. */
    method Chdir(path: array?<char>, dirs: set<Path>) returns (rc: int)
      requires Valid() && IsArgument(path) && path != policy.from && path != policy.to
      modifies this`cwd
      ensures Valid()
      ensures cwd == if path == null then old(cwd)
                     else RealNext(policy.Value(), old(cwd), WorkingDirectory.Chdir(Text(path[..]), dirs))
      ensures rc == 0 <==>
              && path != null
              && var k := Answers(At(old(cwd)));
              var handedOn := AtArgument(policy.Value(), k, AT_FDCWD, Text(path[..]), PATH_MAX).1;
              && handedOn != "" && Resolve(old(cwd), handedOn) in dirs
    {
      var rewritten := new char[PATH_MAX];
      var k := Answers(At(cwd));
      AnswersAreValid();
      ghost var value := policy.Value();
      var target := RewriteCwdRelativeArgument(policy, k, path, rewritten, rewritten.Length);
      assert policy.Value() == value;
      rc := RealChdir(target, dirs);
    }

    /** `getcwd` with a caller's buffer: NULL, or the buffer with the program's name for its directory. */
    method Getcwd(buf: array<char>, size: nat) returns (result: array?<char>)
      requires Valid() && buf != policy.from && buf != policy.to
      requires size <= buf.Length && size <= PATH_MAX
      modifies buf
      ensures IsArgument(result)
      ensures result == null || result == buf
      ensures TextOf(result) == WorkingDirectory.Getcwd(policy.Value(), cwd, size)
      ensures !policy.enabled ==>
                TextOf(result) == if |Render(true, cwd)| < size then Some(Render(true, cwd)) else None
    {
      GetcwdWhenOff(cwd, size);
      var rewritten := new char[PATH_MAX];
      var k := Answers(At(cwd));
      AnswersAreValid();
      ghost var value := policy.Value();
      hide Text, Reverse, Render;
      var ok := RealGetcwd(k, buf, size);
      if !ok {
        return null;
      }
      assert policy.Valid() && policy.Value() == value;
      if !policy.enabled {
        return buf;
      }
      ok := policy.SubstitutePrefixReverse(buf, rewritten, size);
      if !ok {
        return buf;
      }
      var n := StrLen(rewritten, 0);
      ReverseFits(value, Text(buf[..]), size);
      if n + 1 > size {
        assert false;  // the substitution already fitted in size
      } else {
        CopyString(buf, rewritten, n);
      }
      return buf;
    }
  }
}
