/** NUL-terminated byte buffers and the few libc string routines the rewriter calls. */
module CStrings {

  datatype Option<+T> = None | Some(value: T)

  /** The size of every path buffer in the program. */
  const PATH_MAX: nat := 4096

  const NUL: char := '\0'

  /** The string a buffer holds: its bytes before the first NUL. */
  function Text(bytes: seq<char>): (t: string)
    requires NUL in bytes
    ensures |t| < |bytes| && bytes[..|t|] == t && bytes[|t|] == NUL && NUL !in t
  {
    if bytes[0] == NUL then [] else [bytes[0]] + Text(bytes[1..])
  }

  lemma TextIs(bytes: seq<char>, t: string)
    requires |t| < |bytes| && bytes[..|t|] == t && bytes[|t|] == NUL && NUL !in t
    ensures Text(bytes) == t
  {
  }

  lemma TextOfTerminated(bytes: seq<char>, t: string)
    requires |t| < |bytes| && bytes[..|t| + 1] == t + [NUL] && NUL !in t
    ensures NUL in bytes && Text(bytes) == t
  {
    assert bytes[|t|] == bytes[..|t| + 1][|t|];
    assert bytes[..|t|] == bytes[..|t| + 1][..|t|];
    TextIs(bytes, t);
  }

  lemma TextSlice(bytes: seq<char>, start: nat, end: nat)
    requires NUL in bytes && start <= end <= |Text(bytes)|
    ensures bytes[start..end] == Text(bytes)[start..end]
  {
    var t := Text(bytes);
    hide Text;
    assert forall i | start <= i < end :: bytes[i] == bytes[..|t|][i];
    assert bytes[start..end] == bytes[..|t|][start..end];
  }

  /** A pointer argument as a value: NULL, or the string it points to. */
  ghost function TextOf(p: array?<char>): Option<string>
    requires IsArgument(p)
    reads p
  {
    if p == null then None else Some(Text(p[..]))
  }

  /** A `const char *` argument: NULL or NUL-terminated. */
  ghost predicate IsArgument(p: array?<char>)
    reads p
  {
    p != null ==> NUL in p[..]
  }

  /** `memcpy(dst + at, src + start, n)` between distinct buffers. */
  method MemCpy(dst: array<char>, at: nat, src: array<char>, start: nat, n: nat)
    requires dst != src && at + n <= dst.Length && start + n <= src.Length
    modifies dst
    ensures dst[..at + n] == old(dst[..at]) + src[start..start + n]
    ensures dst[at + n..] == old(dst[at + n..])
  {
    forall k | 0 <= k < n {
      dst[at + k] := src[start + k];
    }
  }

  /** `memcpy(dst, src, sizeof(src))` between buffers of one size. */
  method CopyBuffer(dst: array<char>, src: array<char>)
    requires dst != src && dst.Length == src.Length
    modifies dst
    ensures dst[..] == src[..]
  {
    forall k | 0 <= k < src.Length {
      dst[k] := src[k];
    }
  }

  /** `dst[n] = '\0'`: the bytes written so far become the buffer's string. */
  method Terminate(dst: array<char>, n: nat)
    requires n < dst.Length && NUL !in dst[..n]
    modifies dst
    ensures NUL in dst[..] && Text(dst[..]) == old(dst[..n])
  {
    dst[n] := NUL;
    assert dst[..][n] == NUL;
    TextIs(dst[..], old(dst[..n]));
  }

  /** `memcpy(dst, src, strlen(src) + 1)`. */
  method CopyString(dst: array<char>, src: array<char>, n: nat)
    requires dst != src && NUL in src[..] && n == |Text(src[..])| && n < dst.Length
    modifies dst
    ensures NUL in dst[..] && Text(dst[..]) == Text(src[..])
  {
    MemCpy(dst, 0, src, 0, n + 1);
    assert dst[..n + 1] == src[..n + 1] == Text(src[..]) + [NUL];
    TextOfTerminated(dst[..], Text(src[..]));
  }

  /** `strlen(p + start)` for a start inside the string or on its terminator. */
  method StrLen(p: array<char>, start: nat) returns (n: nat)
    requires NUL in p[..] && start <= |Text(p[..])|
    ensures start + n == |Text(p[..])|
  {
    n := 0;
    while p[start + n] != NUL
      invariant start + n <= |Text(p[..])|
      decreases p.Length - n
    {
      n := n + 1;
    }
  }

  /** `strncmp(a, b, n) == 0`, stopping at a difference or at a NUL common to both. */
  method StrNEqual(a: array<char>, b: array<char>, n: nat) returns (same: bool)
    requires NUL in a[..] && n <= b.Length && NUL !in b[..n]
    ensures same <==> n <= |Text(a[..])| && Text(a[..])[..n] == b[..n]
  {
    var k := 0;
    while k < n
      invariant k <= n && k <= |Text(a[..])|
      invariant Text(a[..])[..k] == b[..k]
    {
      if a[k] != b[k] {
        if n <= |Text(a[..])| {
          assert Text(a[..])[..n][k] == a[k] && b[..n][k] == b[k];
        }
        return false;
      }
      assert b[k] in b[..n];
      k := k + 1;
    }
    same := true;
  }
}
