/** The two string operations of the Python runtime that the naming helpers rely on:
    `os.path.basename` (POSIX flavour) and `str.split` with an explicit separator. */
module Text {

  /** Number of occurrences of `c` in `s`. */
  function Count(s: string, c: char): nat
  {
    if s == [] then 0 else (if s[0] == c then 1 else 0) + Count(s[1..], c)
  }

  /** Occurrences in a concatenation add up. */
  lemma {:induction false} CountConcat(a: string, b: string, c: char)
    ensures Count(a + b, c) == Count(a, c) + Count(b, c)
  {
    if a != [] {
      assert (a + b)[1..] == a[1..] + b;
      CountConcat(a[1..], b, c);
    } else {
      assert a + b == b;
    }
  }

  /** A character occurs nowhere exactly when its count is zero. */
  lemma {:induction false} CountZero(s: string, c: char)
    ensures Count(s, c) == 0 <==> c !in s
  {
    if s != [] {
      CountZero(s[1..], c);
      assert s == [s[0]] + s[1..];
    }
  }

  /** `os.path.basename(p)`: what follows the last '/' of `p` (all of `p` when it has none). */
  function Basename(p: string): (b: string)
    ensures '/' !in b
    ensures |b| <= |p| && p[|p| - |b|..] == b
    ensures |b| < |p| ==> p[|p| - |b| - 1] == '/'
  {
    if p == [] || p[|p| - 1] == '/' then []
    else
      var b := Basename(p[..|p| - 1]) + [p[|p| - 1]];
      assert p[|p| - |b|..] == p[..|p| - 1][|p| - |b|..] + [p[|p| - 1]];
      b
  }

  /** The inverse of `Split`: the parts, separated by `sep`. */
  function Join(parts: seq<string>, sep: char): string
    requires |parts| > 0
  {
    if |parts| == 1 then parts[0] else parts[0] + [sep] + Join(parts[1..], sep)
  }

  /** `s.split(sep)`: the maximal runs of `s` free of `sep`, empty runs included, so that
      `"".split('.') == ['']` and `"a..b".split('.') == ['a', '', 'b']`. */
  function Split(s: string, sep: char): (parts: seq<string>)
    ensures |parts| == Count(s, sep) + 1
    ensures forall i :: 0 <= i < |parts| ==> sep !in parts[i]
  {
    if s == [] then [[]]
    else
      var rest := Split(s[1..], sep);
      if s[0] == sep then [[]] + rest
      else [[s[0]] + rest[0]] + rest[1..]
  }

  /** Joining the parts of a split with the separator gives back the string. */
  lemma {:induction false} JoinSplit(s: string, sep: char)
    ensures Join(Split(s, sep), sep) == s
  {
    if s != [] {
      var rest := Split(s[1..], sep);
      JoinSplit(s[1..], sep);
      var parts := Split(s, sep);
      assert s == [s[0]] + s[1..];
      if s[0] == sep {
        assert parts == [[]] + rest;
        assert parts[1..] == rest;
        assert Join(parts, sep) == [] + [sep] + Join(rest, sep);
      } else if |rest| == 1 {
        assert parts == [[s[0]] + rest[0]];
      } else {
        var tail := rest[1..];
        assert parts == [[s[0]] + rest[0]] + tail;
        assert parts[1..] == tail;
        assert Join(parts, sep) == [s[0]] + rest[0] + [sep] + Join(tail, sep);
        assert Join(rest, sep) == rest[0] + [sep] + Join(tail, sep);
      }
    }
  }

  /** Position of the first `sep` in `s` (`|s|` when there is none). */
  function IndexOf(s: string, sep: char): nat
  {
    if s == [] || s[0] == sep then 0 else 1 + IndexOf(s[1..], sep)
  }

  /** The first separator of `a + [sep] + b` is the one after `a` when `a` holds none. */
  lemma {:induction false} IndexOfAfter(a: string, b: string, sep: char)
    requires sep !in a
    ensures IndexOf(a + [sep] + b, sep) == |a|
  {
    if a != [] {
      assert (a + [sep] + b)[1..] == a[1..] + [sep] + b;
      IndexOfAfter(a[1..], b, sep);
    }
  }

  /** A separator occurs at one place only in a string whose two sides are free of it. */
  lemma SeparatorUnique(a: string, b: string, x: string, y: string, sep: char)
    requires sep !in a && sep !in x
    requires a + [sep] + b == x + [sep] + y
    ensures a == x && b == y
  {
    var s := a + [sep] + b;
    IndexOfAfter(a, b, sep);
    IndexOfAfter(x, y, sep);
    assert a == s[..|a|] && x == s[..|x|];
    assert b == s[|a| + 1..] && y == s[|x| + 1..];
  }

  /** Splitting a name with exactly one separator gives back its two sides. */
  lemma SplitTwo(stem: string, ext: string, sep: char)
    requires sep !in stem && sep !in ext
    ensures Split(stem + [sep] + ext, sep) == [stem, ext]
  {
    var s := stem + [sep] + ext;
    var parts := Split(s, sep);
    CountConcat(stem + [sep], ext, sep);
    CountConcat(stem, [sep], sep);
    CountZero(stem, sep);
    CountZero(ext, sep);
    assert |parts| == 2;
    JoinSplit(s, sep);
    assert Join(parts[1..], sep) == parts[1];
    SeparatorUnique(parts[0], parts[1], stem, ext, sep);
  }

  /** The basename of a name without '/' after a directory part is that name. */
  lemma BasenameAfterDirectory(dir: string, name: string)
    requires dir == [] || dir[|dir| - 1] == '/'
    requires '/' !in name
    ensures Basename(dir + name) == name
  {
    var p := dir + name;
    var b := Basename(p);
    assert p[|dir|..] == name;
  }
}
