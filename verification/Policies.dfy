/** The process-wide rewrite policy: its one-time initialisation and the two substitutions that read it. */
module Policies {
  import opened CStrings
  import opened Components
  import opened CleanerLaws
  import opened Mapping
  import opened Cleaner

  /** The policy as a value: disabled, or a pair of stored prefixes. */
  datatype Policy = Off | On(from: string, to: string)

  /** What initialisation makes of the two environment variables. */
  function PolicyFrom(fromEnv: Option<string>, toEnv: Option<string>): Policy {
    if && fromEnv.Some? && toEnv.Some?
       && IsAbsolute(fromEnv.value) && IsAbsolute(toEnv.value)
       && CleanFits(fromEnv.value, PATH_MAX) && CleanFits(toEnv.value, PATH_MAX)
    then On(Clean(fromEnv.value), Clean(toEnv.value))
    else Off
  }

  function Forward(policy: Policy, path: string, n: nat): Option<string> {
    if policy.On? then Swap(path, policy.from, policy.to, n) else None
  }

  function Reverse(policy: Policy, path: string, n: nat): Option<string> {
    if policy.On? then Swap(path, policy.to, policy.from, n) else None
  }

  lemma ReverseFits(policy: Policy, path: string, n: nat)
    ensures Reverse(policy, path, n).Some? ==> |Reverse(policy, path, n).value| + 1 <= n
  {
  }

  /** Both prefixes have the shape initialisation stores. */
  predicate Stored(policy: Policy) {
    policy.On? ==> Cleaned(policy.from) && Cleaned(policy.to)
  }

  lemma PolicyFromIsStored(fromEnv: Option<string>, toEnv: Option<string>)
    ensures var policy := PolicyFrom(fromEnv, toEnv);
            Stored(policy) && (policy.On? ==> |policy.from| < PATH_MAX && |policy.to| < PATH_MAX)
  {
    if PolicyFrom(fromEnv, toEnv).On? {
      CleanFitsLength(fromEnv.value, PATH_MAX);
      CleanFitsLength(toEnv.value, PATH_MAX);
      CleanIsCleaned(fromEnv.value);
      CleanIsCleaned(toEnv.value);
    }
  }

  /**
    Initialisation keeps the components of both values, and gives a policy that maps a whole tree,
    and not just one path, exactly when both variables are usable and FROM neither comes to the
    root nor ends in a pop.
   */
  lemma UsablePolicies(fromEnv: Option<string>, toEnv: Option<string>)
    ensures PolicyFrom(fromEnv, toEnv).On? ==>
              && Parse(PolicyFrom(fromEnv, toEnv).from) == ComponentsOf(fromEnv.value)
              && Parse(PolicyFrom(fromEnv, toEnv).to) == ComponentsOf(toEnv.value)
    ensures var policy := PolicyFrom(fromEnv, toEnv);
            policy.On? && Canonical(policy.from) <==>
            && fromEnv.Some? && toEnv.Some? && IsAbsolute(fromEnv.value) && IsAbsolute(toEnv.value)
            && CleanFits(fromEnv.value, PATH_MAX) && CleanFits(toEnv.value, PATH_MAX)
            && ComponentsOf(fromEnv.value) != [] && !EndsInPop(true, Parse(fromEnv.value))
  {
    if PolicyFrom(fromEnv, toEnv).On? {
      StoredCanonically(fromEnv.value);
      CleanKeepsComponents(fromEnv.value);
      CleanKeepsComponents(toEnv.value);
    }
  }

  /** A value the initialiser accepts: absolute, and no component prefix of it renders into a full buffer. */
  predicate Accepted(value: string) {
    value != "" && value[0] == '/' && forall k | 0 <= k <= |Parse(value)| :: PrefixLength(value, k) < PATH_MAX
  }

  /** Rewriting is on exactly when both variables are set to acceptable values, and then stores their cleaned forms. */
  lemma EnabledExactly(fromEnv: Option<string>, toEnv: Option<string>)
    ensures PolicyFrom(fromEnv, toEnv) ==
            if fromEnv.Some? && toEnv.Some? && Accepted(fromEnv.value) && Accepted(toEnv.value)
            then On(Clean(fromEnv.value), Clean(toEnv.value)) else Off
  {
    if fromEnv.Some? && toEnv.Some? {
      OnlyLengthsDecide(fromEnv.value, PATH_MAX);
      OnlyLengthsDecide(toEnv.value, PATH_MAX);
    }
  }

  /** What a stored prefix applies to: a whole tree if canonical, and itself alone otherwise. */
  predicate AppliesTo(prefix: string, path: string) {
    if Canonical(prefix) then Parse(prefix) <= Parse(path) else path == prefix
  }

  lemma SwapsExactly(path: string, a: string, b: string, n: nat)
    requires Cleaned(path) && Cleaned(a)
    ensures AppliesTo(a, path) ==> |a| <= |path|
    ensures Swap(path, a, b, n) ==
            if AppliesTo(a, path) && |b| + |path| - |a| < n then Some(b + path[|a|..]) else None
  {
    if Canonical(a) {
      MatchIsComponentPrefix(path, a);
    } else {
      NonCanonicalMatchesItself(path, a);
    }
  }

  /** Both substitutions on every cleaned path, for any stored prefixes, the root and overlapping ones included. */
  lemma SubstitutesExactly(policy: Policy, path: string, n: nat)
    requires policy.On? && Stored(policy) && Cleaned(path)
    ensures AppliesTo(policy.from, path) ==> |policy.from| <= |path|
    ensures AppliesTo(policy.to, path) ==> |policy.to| <= |path|
    ensures Forward(policy, path, n) ==
            if AppliesTo(policy.from, path) && |policy.to| + |path| - |policy.from| < n
            then Some(policy.to + path[|policy.from|..]) else None
    ensures Reverse(policy, path, n) ==
            if AppliesTo(policy.to, path) && |policy.from| + |path| - |policy.to| < n
            then Some(policy.from + path[|policy.to|..]) else None
  {
    SwapsExactly(path, policy.from, policy.to, n);
    SwapsExactly(path, policy.to, policy.from, n);
  }

  lemma CleanKeepsRoot(s: string)
    ensures IsAbsolute(Clean(s)) <==> IsAbsolute(s)
  {
    CleanKeepsComponents(s);
  }

  /** `path_matches_prefix`. */
  method PathMatchesPrefix(path: array<char>, prefix: array<char>, prefixLen: nat) returns (b: bool)
    requires NUL in path[..] && NUL in prefix[..] && prefixLen == |Text(prefix[..])|
    ensures b <==> Matches(Text(path[..]), Text(prefix[..]))
  {
    assert prefix[..prefixLen] == Text(prefix[..]);
    b := StrNEqual(path, prefix, prefixLen);
    if b {
      assert prefixLen < |Text(path[..])| ==> path[prefixLen] == Text(path[..])[prefixLen];
      b := path[prefixLen] == NUL || path[prefixLen] == '/';
    }
  }

  /** The body shared by `substitute_prefix` and `substitute_prefix_reverse`. */
  method ReplacePrefix(path: array<char>, prefix: array<char>, prefixLen: nat,
                       replacement: array<char>, replacementLen: nat,
                       dst: array<char>, dstLen: nat)
    returns (ok: bool)
    requires NUL in path[..] && NUL in prefix[..] && NUL in replacement[..]
    requires prefixLen == |Text(prefix[..])| && replacementLen == |Text(replacement[..])|
    requires dst != path && dst != prefix && dst != replacement && dstLen <= dst.Length
    modifies dst
    ensures ok ==> NUL in dst[..]
    ensures Swap(Text(path[..]), Text(prefix[..]), Text(replacement[..]), dstLen) ==
            if ok then Some(Text(dst[..])) else None
  {
    ghost var p, n := Text(path[..]), Text(replacement[..]);
    ok := PathMatchesPrefix(path, prefix, prefixLen);
    if !ok {
      return;
    }
    var suffixLen := StrLen(path, prefixLen);
    if replacementLen + suffixLen + 1 > dstLen {
      return false;
    }
    MemCpy(dst, 0, replacement, 0, replacementLen);
    assert dst[..replacementLen] == n;
    MemCpy(dst, replacementLen, path, prefixLen, suffixLen + 1);
    ReplacedText(path[..], p, prefixLen, suffixLen, n, dst[..]);
  }

  lemma ReplacedText(path: seq<char>, p: string, prefixLen: nat, suffixLen: nat, n: string, dst: seq<char>)
    requires NUL in path && p == Text(path) && prefixLen + suffixLen == |p| && NUL !in n
    requires |n| + suffixLen + 1 <= |dst|
    requires dst[..|n| + (suffixLen + 1)] == n + path[prefixLen..prefixLen + (suffixLen + 1)]
    ensures NUL in dst && Text(dst) == n + p[prefixLen..]
  {
    TextSlice(path, prefixLen, |p|);
    assert path[|p|] == NUL && p[prefixLen..] == p[prefixLen..|p|];
    hide Text;
    var tail := p[prefixLen..];
    assert path[prefixLen..|p| + 1] == path[prefixLen..|p|] + [path[|p|]];
    assert n + (tail + [NUL]) == n + tail + [NUL];
    TextOfTerminated(dst, n + tail);
  }

  /** The checks of `init_rewrite_policy`: both values set, non-empty, absolute and cleanable. */
  method CleanEnvironment(fromEnv: array?<char>, toEnv: array?<char>,
                          cleanedFrom: array<char>, cleanedTo: array<char>)
    returns (usable: bool)
    requires IsArgument(fromEnv) && IsArgument(toEnv)
    requires cleanedFrom.Length == cleanedTo.Length == PATH_MAX && cleanedFrom != cleanedTo
    requires fromEnv != cleanedFrom && fromEnv != cleanedTo && toEnv != cleanedFrom && toEnv != cleanedTo
    modifies cleanedFrom, cleanedTo
    ensures usable ==> NUL in cleanedFrom[..] && NUL in cleanedTo[..]
    ensures PolicyFrom(TextOf(fromEnv), TextOf(toEnv)) ==
            if usable then On(Text(cleanedFrom[..]), Text(cleanedTo[..])) else Off
  {
    hide Clean, CleanFits;
    if fromEnv == null || toEnv == null || fromEnv[0] == NUL || toEnv[0] == NUL {
      return false;
    }
    if fromEnv[0] != '/' || toEnv[0] != '/' {
      return false;
    }
    usable := CleanPathInto(fromEnv, cleanedFrom, cleanedFrom.Length);
    if !usable {
      return;
    }
    usable := CleanPathInto(toEnv, cleanedTo, cleanedTo.Length);
    if !usable {
      return;
    }
    CleanKeepsRoot(Text(fromEnv[..]));
    CleanKeepsRoot(Text(toEnv[..]));
    if cleanedFrom[0] != '/' || cleanedTo[0] != '/' {
      assert false;  // cleaning keeps the leading separator
    }
  }

  lemma AcceptedArguments(fromEnv: array?<char>, toEnv: array?<char>)
    requires IsArgument(fromEnv) && IsArgument(toEnv)
    ensures fromEnv != null ==> NUL in fromEnv[..]
    ensures toEnv != null ==> NUL in toEnv[..]
    ensures PolicyFrom(TextOf(fromEnv), TextOf(toEnv)) ==
            if fromEnv != null && toEnv != null && Accepted(Text(fromEnv[..])) && Accepted(Text(toEnv[..]))
            then On(Clean(Text(fromEnv[..])), Clean(Text(toEnv[..]))) else Off
  {
    EnabledExactly(TextOf(fromEnv), TextOf(toEnv));
  }

  /** The global policy record. */
  class RewritePolicy {
    var once: bool
    var enabled: bool
    var fromLen: nat
    var toLen: nat
    const from: array<char>
    const to: array<char>

    ghost predicate Valid()
      reads this, from, to
    {
      && from.Length == to.Length == PATH_MAX && from != to
      && (enabled ==> NUL in from[..] && NUL in to[..] && fromLen == |Text(from[..])| && toLen == |Text(to[..])|)
    }

    ghost function Value(): Policy
      requires Valid()
      reads this, from, to
    {
      if enabled then On(Text(from[..]), Text(to[..])) else Off
    }

    /** Static storage: disabled and not yet initialised. */
    constructor ()
      ensures Valid() && !once && Value() == Off && fresh(from) && fresh(to)
    {
      once, enabled, fromLen, toLen := false, false, 0, 0;
      from := new char[PATH_MAX](_ => NUL);
      to := new char[PATH_MAX](_ => NUL);
    }

    /** The last part of `init_rewrite_policy`: store the cleaned values and enable rewriting. */
    method Store(cleanedFrom: array<char>, cleanedTo: array<char>)
      requires Valid() && cleanedFrom.Length == cleanedTo.Length == PATH_MAX
      requires NUL in cleanedFrom[..] && NUL in cleanedTo[..]
      requires {cleanedFrom, cleanedTo} !! {from, to}
      modifies this`enabled, this`fromLen, this`toLen, from, to
      ensures Valid() && Value() == On(Text(cleanedFrom[..]), Text(cleanedTo[..]))
    {
      hide Text;
      CopyBuffer(from, cleanedFrom);
      CopyBuffer(to, cleanedTo);
      fromLen := StrLen(from, 0);
      toLen := StrLen(to, 0);
      enabled := true;
    }

    /** `init_rewrite_policy`, with the two variables as `getenv` returns them. */
    method InitRewritePolicy(fromEnv: array?<char>, toEnv: array?<char>)
      requires Valid() && IsArgument(fromEnv) && IsArgument(toEnv)
      requires fromEnv != from && fromEnv != to && toEnv != from && toEnv != to
      modifies this`enabled, this`fromLen, this`toLen, from, to
      ensures Valid() && Value() == PolicyFrom(TextOf(fromEnv), TextOf(toEnv))
      ensures enabled <==> fromEnv != null && toEnv != null && Accepted(Text(fromEnv[..])) && Accepted(Text(toEnv[..]))
      ensures enabled ==> Text(from[..]) == Clean(Text(fromEnv[..])) && Text(to[..]) == Clean(Text(toEnv[..]))
    {
      hide Text, TextOf, PolicyFrom, IsArgument, Accepted, Clean;
      var cleanedFrom := new char[PATH_MAX];
      var cleanedTo := new char[PATH_MAX];
      enabled := false;
      from[0] := NUL;
      to[0] := NUL;
      fromLen := 0;
      toLen := 0;
      var usable := CleanEnvironment(fromEnv, toEnv, cleanedFrom, cleanedTo);
      if usable {
        Store(cleanedFrom, cleanedTo);
      }
      AcceptedArguments(fromEnv, toEnv);
    }

    /** `get_rewrite_policy`: the first call initialises, later calls ignore the environment. */
    method GetRewritePolicy(fromEnv: array?<char>, toEnv: array?<char>)
      requires Valid() && IsArgument(fromEnv) && IsArgument(toEnv)
      requires fromEnv != from && fromEnv != to && toEnv != from && toEnv != to
      modifies this, from, to
      ensures Valid() && once
      ensures Value() == if old(once) then old(Value()) else PolicyFrom(TextOf(fromEnv), TextOf(toEnv))
    {
      if !once {
        InitRewritePolicy(fromEnv, toEnv);
        once := true;
      }
    }

    /** `substitute_prefix`. */
    method SubstitutePrefix(path: array<char>, dst: array<char>, dstLen: nat) returns (ok: bool)
      requires Valid() && NUL in path[..]
      requires dst != path && dst != from && dst != to && dstLen <= dst.Length
      modifies dst
      ensures ok ==> NUL in dst[..]
      ensures Forward(Value(), Text(path[..]), dstLen) == if ok then Some(Text(dst[..])) else None
    {
      if !enabled {
        return false;
      }
      ok := ReplacePrefix(path, from, fromLen, to, toLen, dst, dstLen);
    }

    /** `substitute_prefix_reverse`. */
    method SubstitutePrefixReverse(path: array<char>, dst: array<char>, dstLen: nat) returns (ok: bool)
      requires Valid() && NUL in path[..]
      requires dst != path && dst != from && dst != to && dstLen <= dst.Length
      modifies dst
      ensures ok ==> NUL in dst[..]
      ensures Reverse(Value(), Text(path[..]), dstLen) == if ok then Some(Text(dst[..])) else None
    {
      if !enabled {
        return false;
      }
      ok := ReplacePrefix(path, to, toLen, from, fromLen, dst, dstLen);
    }
  }
}
