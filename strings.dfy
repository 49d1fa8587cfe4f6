/** The parts of Go's `strings` and `path/filepath` packages that the syncer
    relies on, over `string` (a sequence of Unicode scalar values). A Go
    string, like a Linux file name, is any sequence of bytes; one that is
    valid UTF-8 is the encoding of such a sequence of characters. For those,
    prefix tests and the `<` order agree between the two views, while `len`
    counts bytes, which `Utf8Len` models. */
module Strings {

  /** `strings.HasPrefix(s, prefix)`: a plain textual prefix, with no regard
      for path segments. */
  predicate HasPrefix(s: string, prefix: string)
  {
    |prefix| <= |s| && s[..|prefix|] == prefix
  }

  /** The index of the last '/' in `s`, or -1 when there is none. */
  function LastSlash(s: string): (i: int)
    ensures -1 <= i < |s|
    ensures i >= 0 ==> s[i] == '/'
    ensures forall j :: i < j < |s| ==> s[j] != '/'
  {
    if |s| == 0 then -1
    else if s[|s| - 1] == '/' then |s| - 1
    else LastSlash(s[..|s| - 1])
  }

  /** `filepath.Split` on a Unix path: the directory part up to and including
      the last '/', and the file part after it. */
  function Split(path: string): (r: (string, string))
    ensures r.0 + r.1 == path
    ensures '/' !in r.1
    ensures r.0 == [] || r.0[|r.0| - 1] == '/'
  {
    var i := LastSlash(path);
    (path[..i + 1], path[i + 1..])
  }

  /** The three properties of `Split` determine it. */
  lemma SplitUnique(path: string, dir: string, file: string)
    requires dir + file == path
    requires '/' !in file
    requires dir == [] || dir[|dir| - 1] == '/'
    ensures Split(path) == (dir, file)
  {
    assert dir == path[..|dir|];
    assert file == path[|dir|..];
  }

  /** `strings.TrimRight(s, cutset)` for a one-character cutset. */
  function TrimRight(s: string, c: char): (r: string)
    ensures HasPrefix(s, r)
    ensures r == [] || r[|r| - 1] != c
    ensures forall j :: |r| <= j < |s| ==> s[j] == c
  {
    if |s| > 0 && s[|s| - 1] == c then TrimRight(s[..|s| - 1], c) else s
  }

  /** `strings.TrimLeft(s, cutset)` for a one-character cutset. */
  function TrimLeft(s: string, c: char): (r: string)
    ensures |r| <= |s| && r == s[|s| - |r|..]
    ensures r == [] || r[0] != c
    ensures forall j :: 0 <= j < |s| - |r| ==> s[j] == c
  {
    if |s| > 0 && s[0] == c then TrimLeft(s[1..], c) else s
  }

  /** `strings.Trim(s, cutset)` for a one-character cutset. */
  function Trim(s: string, c: char): string
  {
    TrimRight(TrimLeft(s, c), c)
  }

  /** The number of bytes of the UTF-8 encoding of `c`. */
  function CharUtf8Len(c: char): (n: nat)
    ensures 1 <= n <= 4
    ensures (c as int) < 0x80 <==> n == 1
  {
    if (c as int) < 0x80 then 1
    else if (c as int) < 0x800 then 2
    else if (c as int) < 0x1_0000 then 3
    else 4
  }

  /** Go's `len(s)`: the length of `s` in UTF-8 bytes. */
  function Utf8Len(s: string): nat
  {
    if s == [] then 0 else Utf8Len(s[..|s| - 1]) + CharUtf8Len(s[|s| - 1])
  }

  lemma {:induction false} Utf8LenConcat(a: string, b: string)
    ensures Utf8Len(a + b) == Utf8Len(a) + Utf8Len(b)
    decreases |b|
  {
    if b != [] {
      var b' := b[..|b| - 1];
      assert (a + b)[..|a + b| - 1] == a + b';
      Utf8LenConcat(a, b');
    } else {
      assert a + b == a;
    }
  }

  /** Go's `a < b` on strings: lexicographic order, byte by byte, which on
      UTF-8 texts is the lexicographic order of code points. */
  predicate Less(a: string, b: string)
  {
    if |a| == 0 then |b| > 0
    else if |b| == 0 then false
    else if a[0] != b[0] then a[0] < b[0]
    else Less(a[1..], b[1..])
  }

  lemma {:induction false} LessIrreflexive(a: string)
    ensures !Less(a, a)
  {
    if |a| > 0 {
      LessIrreflexive(a[1..]);
    }
  }

  lemma {:induction false} LessTransitive(a: string, b: string, c: string)
    requires Less(a, b) && Less(b, c)
    ensures Less(a, c)
  {
    if |a| > 0 && |b| > 0 && |c| > 0 && a[0] == b[0] == c[0] {
      LessTransitive(a[1..], b[1..], c[1..]);
    }
  }

  /** Any two different strings are ordered one way or the other. */
  lemma {:induction false} LessTotal(a: string, b: string)
    ensures a == b || Less(a, b) || Less(b, a)
  {
    if |a| > 0 && |b| > 0 && a[0] == b[0] {
      LessTotal(a[1..], b[1..]);
      if a[1..] == b[1..] {
        assert a == [a[0]] + a[1..] && b == [b[0]] + b[1..];
      }
    }
  }
}
