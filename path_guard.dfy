/** `path_join`: the only check between a client-supplied name and the file
    system. A name containing "..", '/' or '\' is refused; any other name is
    joined to the storage directory with the platform's separator, provided
    the result fits the path buffer. */
module PathGuard {
  import opened Text

  /** `strstr(name, "..") != NULL`, as a left-to-right scan. */
  function HasDotDot(name: string): (r: bool)
    ensures r <==> exists i :: 0 <= i < |name| - 1 && name[i] == '.' && name[i + 1] == '.'
  {
    if |name| < 2 then false
    else if name[0] == '.' && name[1] == '.' then true
    else
      var r := HasDotDot(name[1..]);
      assert forall i :: 1 <= i < |name| - 1 ==> name[i] == name[1..][i - 1];
      r
  }

  /** The names the guard refuses. */
  predicate Rejected(name: string) {
    (exists i :: 0 <= i < |name| - 1 && name[i] == '.' && name[i + 1] == '.') ||
    '/' in name || '\\' in name
  }

  /** `path_join(out, cap, dir, name)` with separator `sep`: `None` is a
      `false` return, `Some(p)` a `true` return with `p` in `out`. */
  function PathJoin(dir: string, name: string, sep: char, cap: nat): (r: Option<string>)
    ensures r.Some? <==> !Rejected(name) && |dir| + 1 + |name| < cap
    ensures r.Some? ==> r.value == dir + [sep] + name
  {
    if HasDotDot(name) || '/' in name || '\\' in name then None
    else
      var joined := dir + [sep] + name;
      if 0 < |joined| < cap then Some(joined) else None
  }

  /** A joined path is the storage directory, one separator and a single
      component that neither climbs nor descends. */
  lemma JoinStaysInRoot(dir: string, name: string, sep: char, cap: nat)
    requires PathJoin(dir, name, sep, cap).Some?
    ensures var p := PathJoin(dir, name, sep, cap).value;
      StartsWith(p, dir + [sep]) && p[|dir| + 1..] == name &&
      '/' !in p[|dir| + 1..] && '\\' !in p[|dir| + 1..] && !HasDotDot(p[|dir| + 1..])
  {
    var p := PathJoin(dir, name, sep, cap).value;
    assert p[..|dir| + 1] == dir + [sep];
    assert p[|dir| + 1..] == name;
  }

  /** Distinct accepted names give distinct paths, so the store can be
      indexed by name instead of by path. */
  lemma JoinInjective(dir: string, a: string, b: string, sep: char, cap: nat)
    requires PathJoin(dir, a, sep, cap).Some? && PathJoin(dir, b, sep, cap).Some?
    requires PathJoin(dir, a, sep, cap) == PathJoin(dir, b, sep, cap)
    ensures a == b
  {
    JoinStaysInRoot(dir, a, sep, cap);
    JoinStaysInRoot(dir, b, sep, cap);
  }
}
