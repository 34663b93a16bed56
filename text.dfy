/** Option and Result wrappers, substring search and POSIX path joining:
    the small pieces of Python's standard library the frontend relies on. */
module Text {

  datatype Option<+T> = None | Some(value: T) {
    function GetOr(default: T): T {
      match this
      case Some(v) => v
      case None => default
    }
  }

  datatype Result<+T, +E> = Ok(value: T) | Err(error: E)

  /** Python's `t in s` for strings: `t` occurs somewhere in `s`. */
  predicate Contains(s: string, t: string)
    decreases |s|
  {
    t <= s || (|s| > 0 && Contains(s[1..], t))
  }

  /** Python's `s.endswith(t)`. */
  predicate EndsWith(s: string, t: string) {
    |t| <= |s| && s[|s| - |t|..] == t
  }

  /** A string contains every piece it was concatenated from. */
  lemma {:induction false} ContainsInfix(a: string, t: string, b: string)
    ensures Contains(a + t + b, t)
  {
    if a == [] {
      assert a + t + b == t + b;
    } else {
      assert (a + t + b)[1..] == a[1..] + t + b;
      ContainsInfix(a[1..], t, b);
    }
  }

  /** Appending to a string keeps what it contains. */
  lemma {:induction false} ContainsExtend(s: string, t: string, b: string)
    requires Contains(s, t)
    ensures Contains(s + b, t)
  {
    if t <= s {
      assert t <= s + b;
    } else {
      assert (s + b)[1..] == s[1..] + b;
      ContainsExtend(s[1..], t, b);
    }
  }

  /** `os.path.join(dir, name)` on POSIX: an absolute `name` discards `dir`;
      otherwise a separator is inserted unless `dir` is empty or already ends in one. */
  function Join(dir: string, name: string): (p: string)
    ensures |name| > 0 && name[0] == '/' ==> p == name
    ensures !(|name| > 0 && name[0] == '/') ==>
      dir <= p && |p| - |name| - |dir| in {0, 1} && p[|p| - |name|..] == name
      && (|p| == |dir| + |name| <==> dir == [] || dir[|dir| - 1] == '/')
      && (|p| == |dir| + |name| + 1 ==> p[|dir|] == '/')
  {
    if |name| > 0 && name[0] == '/' then name
    else if dir == [] || dir[|dir| - 1] == '/' then dir + name
    else dir + "/" + name
  }
}
