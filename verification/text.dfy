/** String helpers that mirror the Python built-ins the pipeline relies on:
    `str.replace` for one character, `str.lower` (ASCII only), `str.split("/")[0]`,
    two-argument `os.path.join` on POSIX, and the code-point lexicographic order
    that `sorted` uses on strings. */
module Text {

  /** `s.replace(from, to)` for single characters. */
  function ReplaceChar(s: string, from: char, to: char): (r: string)
    ensures |r| == |s|
    ensures forall i :: 0 <= i < |s| ==> r[i] == (if s[i] == from then to else s[i])
    ensures from != to ==> from !in r
    ensures from !in s ==> r == s
  {
    seq(|s|, i requires 0 <= i < |s| => if s[i] == from then to else s[i])
  }

  /** An ASCII capital letter. */
  predicate IsUpper(c: char)
  {
    'A' <= c <= 'Z'
  }

  /** Python's `str.lower`, restricted to ASCII letters. */
  function LowerChar(c: char): char
  {
    if IsUpper(c) then (c as int + 32) as char else c
  }

  /** `s.lower()`: capitals become the small letter 32 code points above,
      every other character is kept, and no capital is left. */
  function Lower(s: string): (r: string)
    ensures |r| == |s|
    ensures forall i :: 0 <= i < |s| && IsUpper(s[i]) ==> r[i] as int == s[i] as int + 32
    ensures forall i :: 0 <= i < |s| && !IsUpper(s[i]) ==> r[i] == s[i]
    ensures forall i :: 0 <= i < |r| ==> !IsUpper(r[i])
  {
    seq(|s|, i requires 0 <= i < |s| => LowerChar(s[i]))
  }

  /** Lower-casing is idempotent: a sort key is its own sort key. */
  lemma LowerIdempotent(s: string)
    ensures Lower(Lower(s)) == Lower(s)
  {
  }

  /** Strings that differ only in the case of ASCII letters have the same key. */
  lemma LowerIgnoresCase(a: string, b: string)
    requires |a| == |b|
    requires forall i :: 0 <= i < |a| ==>
      || a[i] == b[i]
      || (IsUpper(a[i]) && b[i] as int == a[i] as int + 32)
      || (IsUpper(b[i]) && a[i] as int == b[i] as int + 32)
    ensures Lower(a) == Lower(b)
  {
  }

  /** `s.split("/")[0]`: the text before the first `/`, or all of `s`. */
  function FirstSegment(s: string): (r: string)
    ensures |r| <= |s| && r == s[..|r|]
    ensures '/' !in r
    ensures |r| < |s| ==> s[|r|] == '/'
  {
    if |s| == 0 || s[0] == '/' then "" else [s[0]] + FirstSegment(s[1..])
  }

  /** Two-argument `os.path.join` on POSIX: an absolute second part replaces
      the first; otherwise a separator is inserted unless the first part is
      empty or already ends with one. */
  function Join(dir: string, name: string): string
  {
    if |name| > 0 && name[0] == '/' then name
    else if |dir| == 0 || dir[|dir| - 1] == '/' then dir + name
    else dir + "/" + name
  }

  /** The joined path ends with the last part; a relative last part follows
      the directory; and a last part without separators is preceded by one
      unless it is the whole path. */
  lemma JoinShape(dir: string, name: string)
    ensures var r := Join(dir, name);
      && |name| <= |r| && r[|r| - |name|..] == name
      && (!(|name| > 0 && name[0] == '/') ==> |dir| <= |r| && r[..|dir|] == dir)
      && ('/' !in name ==> |r| == |name| || r[|r| - |name| - 1] == '/')
  {
  }

  /** Two joins whose last parts contain no separator and differ never land on
      the same path: the last part is recovered as the text after the final `/`. */
  lemma JoinDistinctNames(dir1: string, name1: string, dir2: string, name2: string)
    requires '/' !in name1 && '/' !in name2
    requires name1 != name2
    ensures Join(dir1, name1) != Join(dir2, name2)
  {
    JoinShape(dir1, name1);
    JoinShape(dir2, name2);
  }

  /** Code-point lexicographic order on strings (Python's `<=` on `str`). */
  predicate LexLe(a: string, b: string)
  {
    if |a| == 0 then true
    else if |b| == 0 then false
    else if a[0] != b[0] then a[0] < b[0]
    else LexLe(a[1..], b[1..])
  }

  lemma {:induction false} LexLeTotal(a: string, b: string)
    ensures LexLe(a, b) || LexLe(b, a)
  {
    if |a| > 0 && |b| > 0 && a[0] == b[0] {
      LexLeTotal(a[1..], b[1..]);
    }
  }

  lemma {:induction false} LexLeTransitive(a: string, b: string, c: string)
    requires LexLe(a, b) && LexLe(b, c)
    ensures LexLe(a, c)
  {
    if |a| > 0 && |b| > 0 && |c| > 0 && a[0] == b[0] && b[0] == c[0] {
      LexLeTransitive(a[1..], b[1..], c[1..]);
    }
  }

  lemma {:induction false} LexLeAntisymmetric(a: string, b: string)
    requires LexLe(a, b) && LexLe(b, a)
    ensures a == b
  {
    if |a| > 0 && |b| > 0 {
      LexLeAntisymmetric(a[1..], b[1..]);
      assert a == [a[0]] + a[1..];
      assert b == [b[0]] + b[1..];
    }
  }
}
