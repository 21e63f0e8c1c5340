/** Characters, C strings and the `chomp` helper shared by the server and client
    programs. A C `char` is modelled as a Dafny `char`. */
module Text {

  datatype Option<T> = None | Some(value: T)

  /** The C string terminator. */
  const NUL: char := '\0'

  /** The bytes `chomp` strips from the end of a line. */
  predicate IsLineEnd(c: char) {
    c == '\n' || c == '\r'
  }

  /** `isspace` in the C locale. */
  predicate IsSpace(c: char) {
    c == ' ' || c == '\t' || c == '\n' || c == '\r' || c == '\U{000B}' || c == '\U{000C}'
  }

  /** `strncmp(s, p, |p|) == 0` for a `p` without NUL. */
  predicate StartsWith(s: string, p: string) {
    |p| <= |s| && s[..|p|] == p
  }

  /** The C string held in a buffer: everything before the first NUL. */
  function CStr(s: seq<char>): (r: string)
    ensures r <= s && NUL !in r
    ensures |r| < |s| ==> s[|r|] == NUL
  {
    if |s| == 0 || s[0] == NUL then [] else [s[0]] + CStr(s[1..])
  }

  /** What `chomp` leaves of a string: the string without its trailing
      run of '\n' and '\r'. */
  function Chomped(s: string): (r: string)
    ensures r <= s
    ensures r == [] || !IsLineEnd(r[|r| - 1])
    ensures forall i :: |r| <= i < |s| ==> IsLineEnd(s[i])
  {
    if |s| > 0 && IsLineEnd(s[|s| - 1]) then Chomped(s[..|s| - 1]) else s
  }

  /** The run `chomp` removes is exactly the maximal trailing run: any prefix
      that does not end in a line end and is followed only by line ends is the
      chomped string. */
  lemma {:induction false} ChompedIsMaximalRun(s: string, p: string)
    requires p <= s
    requires p == [] || !IsLineEnd(p[|p| - 1])
    requires forall i :: |p| <= i < |s| ==> IsLineEnd(s[i])
    ensures Chomped(s) == p
  {
    if |s| > |p| {
      assert IsLineEnd(s[|s| - 1]);
      assert p <= s[..|s| - 1];
      ChompedIsMaximalRun(s[..|s| - 1], p);
    } else {
      assert p == s;
    }
  }

  /** Chomping twice is chomping once. */
  lemma ChompIdempotent(s: string)
    ensures Chomped(Chomped(s)) == Chomped(s)
  {
    var r := Chomped(s);
    ChompedIsMaximalRun(r, r);
  }

  /** `chomp` as the C code runs it on a NUL-terminated buffer: measure the
      string with `strlen`, then overwrite trailing '\n'/'\r' with NUL from
      the end. The result is the new string length. */
  method ChompInPlace(s: array<char>) returns (n: nat)
    requires NUL in s[..]
    modifies s
    ensures n < s.Length && s[n] == NUL
    ensures s[..n] == Chomped(CStr(old(s[..])))
    ensures CStr(s[..]) == Chomped(CStr(old(s[..])))
    ensures forall i :: n <= i < |CStr(old(s[..]))| ==> s[i] == NUL
    ensures forall i :: 0 <= i < s.Length && !(n <= i < |CStr(old(s[..]))|) ==> s[i] == old(s[i])
  {
    ghost var s0 := s[..];
    var len := StrLen(s);
    n := len;
    while n > 0 && IsLineEnd(s[n - 1])
      invariant n <= len
      invariant s[..n] == s0[..n] && s[len..] == s0[len..]
      invariant forall i :: n <= i < len ==> s[i] == NUL && IsLineEnd(s0[i])
    {
      n := n - 1;
      s[n] := NUL;
      assert s[..n] == s0[..n];
    }
    ChompedBuffer(s0, s[..], n, len);
  }

  /** Where `chomp`'s loop stops on the buffer `s0` whose string has length
      `len`, the buffer `t` it leaves holds the chomped string. */
  lemma ChompedBuffer(s0: seq<char>, t: seq<char>, n: nat, len: nat)
    requires |t| == |s0| && len < |s0| && s0[len] == NUL && s0[..len] == CStr(s0)
    requires n <= len && t[..n] == s0[..n] && t[len..] == s0[len..]
    requires forall i :: n <= i < len ==> t[i] == NUL && IsLineEnd(s0[i])
    requires n == 0 || !IsLineEnd(t[n - 1])
    ensures t[n] == NUL && t[..n] == Chomped(CStr(s0)) && CStr(t) == t[..n]
    ensures forall i :: n <= i < len ==> t[i] == NUL
    ensures forall i :: 0 <= i < |t| && !(n <= i < len) ==> t[i] == s0[i]
  {
    assert forall i :: 0 <= i < n ==> t[i] == t[..n][i];
    assert forall i :: len <= i < |t| ==> t[i] == t[len..][i - len];
    ChompedIsMaximalRun(s0[..len], s0[..n]);
    CStrAtNul(t, n);
  }

  /** `strlen`: the index of the first NUL. */
  method StrLen(s: array<char>) returns (len: nat)
    requires NUL in s[..]
    ensures len < s.Length && s[len] == NUL
    ensures s[..len] == CStr(s[..])
  {
    len := 0;
    while s[len] != NUL
      invariant len < s.Length && NUL !in s[..len]
      invariant NUL in s[len..]
      decreases s.Length - len
    {
      assert s[len..][0] == s[len];
      assert s[..len + 1] == s[..len] + [s[len]];
      len := len + 1;
    }
    CStrAtNul(s[..], len);
  }

  /** A buffer whose first NUL is at `n` holds the C string of length `n`. */
  lemma {:induction false} CStrAtNul(s: seq<char>, n: nat)
    requires n < |s| && s[n] == NUL && NUL !in s[..n]
    ensures CStr(s) == s[..n]
  {
    if n > 0 {
      assert s[0] != NUL by { assert s[..n][0] == s[0]; }
      assert s[1..][..n - 1] == s[..n][1..];
      CStrAtNul(s[1..], n - 1);
    }
  }
  /** A buffer holding `b` followed by a NUL holds the C string of `b`,
      whatever `b` itself contains. */
  lemma {:induction false} CStrOfTerminated(s: seq<char>, b: seq<char>)
    requires |b| < |s| && s[..|b|] == b && s[|b|] == NUL
    ensures CStr(s) == CStr(b)
  {
    if |b| > 0 {
      assert s[0] == b[0];
      if b[0] != NUL {
        assert s[1..][..|b| - 1] == b[1..];
        CStrOfTerminated(s[1..], b[1..]);
      }
    }
  }

  /** Regrouping a concatenation, for proofs that keep their context small. */
  lemma ConcatAssoc<T>(a: seq<T>, b: seq<T>, c: seq<T>)
    ensures a + (b + c) == (a + b) + c
  {
  }

  lemma PrefixTrans<T>(a: seq<T>, b: seq<T>, c: seq<T>)
    requires a <= b && b <= c
    ensures a <= c
  {
    assert c[..|a|] == b[..|a|];
  }

  /** Cutting `a + b` at a point inside `b`. */
  lemma CutAfter<T>(a: seq<T>, b: seq<T>, n: nat)
    requires |a| <= n <= |a| + |b|
    ensures (a + b)[..n] == a + b[..n - |a|] && (a + b)[n..] == b[n - |a|..]
  {
  }

  /** A sequence is its first `k` elements followed by its rest, taken from
      any sequence that agrees with it from `k` on. */
  lemma SplitAt<T>(now: seq<T>, was: seq<T>, k: nat)
    requires k <= |now| && k <= |was| && now[k..] == was[k..]
    ensures now == now[..k] + was[k..]
  {
    assert now == now[..k] + now[k..];
  }
}
