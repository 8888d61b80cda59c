/** The three pieces of Python string and path handling the orchestrator
    depends on: `os.path.join` with two arguments (POSIX flavour),
    `str.lower()` restricted to ASCII letters, and the substring test
    `sub in s`. */
module Paths {

  /** True when `s` ends with `suffix`. */
  predicate EndsWith(s: string, suffix: string) {
    |suffix| <= |s| && s[|s| - |suffix|..] == suffix
  }

  /** True when `p` is an absolute POSIX path. */
  predicate IsAbsolute(p: string) {
    |p| > 0 && p[0] == '/'
  }

  /** `os.path.join(dir, file)` on POSIX: an absolute `file` replaces the
      directory; otherwise a separator is inserted unless `dir` is empty or
      already ends with one. */
  function Join(dir: string, file: string): string
  {
    if IsAbsolute(file) then file
    else if dir == [] || dir[|dir| - 1] == '/' then dir + file
    else dir + "/" + file
  }

  /** What `os.path.join` promises: the joined path ends with `file`; an
      absolute `file` is the result; a relative one is appended to `dir`. */
  lemma JoinShape(dir: string, file: string)
    ensures EndsWith(Join(dir, file), file)
    ensures IsAbsolute(file) ==> Join(dir, file) == file
    ensures !IsAbsolute(file) ==> dir <= Join(dir, file) && |Join(dir, file)| >= |dir| + |file|
  {
  }

  /** ASCII lower-casing of one character: an upper-case letter becomes the
      lower-case letter of the same place in the alphabet, every other
      character is kept, and no upper-case letter is left. */
  function LowerChar(c: char): (d: char)
    ensures 'A' <= c <= 'Z' ==> d == "abcdefghijklmnopqrstuvwxyz"[c as int - 'A' as int]
    ensures !('A' <= c <= 'Z') ==> d == c
    ensures !('A' <= d <= 'Z')
  {
    if 'A' <= c <= 'Z' then (c as int - 'A' as int + 'a' as int) as char else c
  }

  /** `s.lower()`, character by character. */
  function Lower(s: string): (r: string)
    ensures |r| == |s|
    ensures forall i :: 0 <= i < |s| ==> r[i] == LowerChar(s[i])
  {
    if s == [] then [] else [LowerChar(s[0])] + Lower(s[1..])
  }

  /** Lower-casing twice is lower-casing once, as for `str.lower()`: the
      result of `Lower` has no upper-case letter left to change. */
  lemma LowerIdempotent(s: string)
    ensures Lower(Lower(s)) == Lower(s)
  {
  }

  /** Python's `sub in s` for strings: `sub` occurs somewhere in `s`. */
  predicate Contains(s: string, sub: string) {
    sub <= s || (s != [] && Contains(s[1..], sub))
  }

  /** `sub` occurs in `s` starting at position `i`. */
  predicate OccursAt(s: string, sub: string, i: int) {
    0 <= i && i + |sub| <= |s| && s[i..i + |sub|] == sub
  }

  /** `Contains` agrees with the positional reading of a substring: some
      window of `s` of the length of `sub` equals `sub`. */
  lemma {:induction false} ContainsAt(s: string, sub: string)
    ensures Contains(s, sub) <==> exists i :: OccursAt(s, sub, i)
  {
    if sub <= s {
      assert OccursAt(s, sub, 0);
    } else if s == [] {
    } else {
      ContainsAt(s[1..], sub);
      if exists i :: OccursAt(s, sub, i) {
        var i :| OccursAt(s, sub, i);
        assert i != 0;
        assert s[1..][i - 1..i - 1 + |sub|] == s[i..i + |sub|];
        assert OccursAt(s[1..], sub, i - 1);
      }
      if exists j :: OccursAt(s[1..], sub, j) {
        var j :| OccursAt(s[1..], sub, j);
        assert s[j + 1..j + 1 + |sub|] == s[1..][j..j + |sub|];
        assert OccursAt(s, sub, j + 1);
      }
    }
  }

  /** The test `'namespace' in resource_file.lower()` that stop uses to
      recognise the namespace manifest. */
  predicate NamesNamespace(file: string) {
    Contains(Lower(file), "namespace")
  }
}
