/** The static ignore patterns (pkg/syncer/constants.go). `init` joins one
    regular-expression alternative per listed name; the predicates below say
    what the joined expressions match. The listed names are pasted into the
    expressions unescaped, so their `.` is the regular-expression wildcard. */
module IgnorePatterns {
  import opened Strings

  const FoldersToIgnore: seq<string> := [
    ".pytest_cache", ".git", ".idea", "node_modules", ".teamcity", ".bash_history",
    ".venv", ".virtualenv", "venv", "coverage", "test_results"
  ]

  const FilesToIgnore: seq<string> := [".pyc", ".tmp"]

  /** The alternative `init` formats for one folder name. */
  function FolderAlternative(name: string): string
  {
    "(.*(/|^)" + name + "(/|$).*)"
  }

  /** The alternative `init` formats for one file suffix. */
  function FileAlternative(suffix: string): string
  {
    "(.*\\w+" + suffix + "$)"
  }

  /** The alternatives separated by '|'. */
  function Join(alternatives: seq<string>): string
  {
    if |alternatives| == 0 then ""
    else if |alternatives| == 1 then alternatives[0]
    else Join(alternatives[..|alternatives| - 1]) + "|" + alternatives[|alternatives| - 1]
  }

  /** Every alternative is parenthesized. */
  predicate Parenthesized(alternatives: seq<string>)
  {
    forall k :: 0 <= k < |alternatives| ==>
      |alternatives[k]| >= 2 && alternatives[k][0] == '(' && alternatives[k][|alternatives[k]| - 1] == ')'
  }

  lemma {:induction false} JoinEnds(alternatives: seq<string>)
    requires |alternatives| > 0 && Parenthesized(alternatives)
    ensures |Join(alternatives)| >= 2
    ensures Join(alternatives)[0] == '('
    ensures Join(alternatives)[|Join(alternatives)| - 1] == ')'
  {
    if |alternatives| > 1 {
      var front := alternatives[..|alternatives| - 1];
      assert Parenthesized(front) by {
        assert forall k :: 0 <= k < |front| ==> front[k] == alternatives[k];
      }
      JoinEnds(front);
    }
  }

  /** The loop of `init`: append each alternative and a '|', then
      `strings.Trim` the '|' characters off both ends. The result is the
      alternatives joined by '|'. */
  method BuildExpression(alternatives: seq<string>) returns (exp: string)
    requires Parenthesized(alternatives)
    ensures exp == Join(alternatives)
  {
    var raw := "";
    for n := 0 to |alternatives|
      invariant n == 0 ==> raw == ""
      invariant n > 0 ==> raw == Join(alternatives[..n]) + "|"
    {
      if n > 0 {
        assert alternatives[..n + 1][..n] == alternatives[..n];
      }
      raw := raw + alternatives[n] + "|";
    }
    assert alternatives[..|alternatives|] == alternatives;
    if |alternatives| > 0 {
      JoinEnds(alternatives);
      var joined := Join(alternatives);
      assert raw == joined + "|";
      assert TrimLeft(raw, '|') == raw;
      assert raw[..|raw| - 1] == joined;
      assert TrimRight(raw, '|') == TrimRight(joined, '|') == joined;
    }
    exp := Trim(raw, '|');
  }

  /** `folderIgnoreExp` as the source string `init` compiles, for `names`
      the folder list. The string itself is not interpreted:
      `FolderIgnored` below is the meaning of matching its compiled form. */
  method FolderIgnoreExpression(names: seq<string>) returns (exp: string)
    ensures exp == Join(seq(|names|, k requires 0 <= k < |names| => FolderAlternative(names[k])))
  {
    var alternatives := seq(|names|, k requires 0 <= k < |names| => FolderAlternative(names[k]));
    exp := BuildExpression(alternatives);
  }

  /** `fileIgnoreExp` as the source string `init` compiles, for `suffixes`
      the file list. `FileIgnored` below is the meaning of matching its
      compiled form. */
  method FileIgnoreExpression(suffixes: seq<string>) returns (exp: string)
    ensures exp == Join(seq(|suffixes|, k requires 0 <= k < |suffixes| => FileAlternative(suffixes[k])))
  {
    var alternatives := seq(|suffixes|, k requires 0 <= k < |suffixes| => FileAlternative(suffixes[k]));
    exp := BuildExpression(alternatives);
  }

  /** What `init` builds from the two lists: the folder and the file
      expressions it compiles. */
  method InitExpressions() returns (folderExp: string, fileExp: string)
    ensures folderExp == Join(seq(|FoldersToIgnore|, k requires 0 <= k < |FoldersToIgnore| => FolderAlternative(FoldersToIgnore[k])))
    ensures fileExp == Join(seq(|FilesToIgnore|, k requires 0 <= k < |FilesToIgnore| => FileAlternative(FilesToIgnore[k])))
  {
    folderExp := FolderIgnoreExpression(FoldersToIgnore);
    fileExp := FileIgnoreExpression(FilesToIgnore);
  }

  /** One character of a listed name read as a pattern: `.` matches any
      character but a newline, every other listed character itself. */
  predicate CharMatches(pattern: char, c: char)
  {
    if pattern == '.' then c != '\n' else c == pattern
  }

  /** `name`, read as a pattern, matches the text of `p` starting at `i`. */
  predicate MatchesAt(p: string, i: int, name: string)
  {
    0 <= i && i + |name| <= |p| && forall k :: 0 <= k < |name| ==> CharMatches(name[k], p[i + k])
  }

  /** `(/|^)NAME(/|$)` matches at `i`: the match starts the text or follows a
      '/', and ends the text or precedes a '/'. */
  predicate SegmentAt(p: string, i: int, name: string)
  {
    && MatchesAt(p, i, name)
    && (i == 0 || p[i - 1] == '/')
    && (i + |name| == |p| || p[i + |name|] == '/')
  }

  /** The meaning of the joined folder expression: some listed name occurs
      in `p` as a whole '/'-delimited segment. */
  predicate FolderPatternMatches(names: seq<string>, p: string)
  {
    exists k, i :: 0 <= k < |names| && 0 <= i <= |p| && SegmentAt(p, i, names[k])
  }

  /** `\w`: an ASCII letter, digit or underscore. */
  predicate WordChar(c: char)
  {
    ('a' <= c <= 'z') || ('A' <= c <= 'Z') || ('0' <= c <= '9') || c == '_'
  }

  /** `\w+SUFFIX$` matches at the end of `p`. */
  predicate EndsWithWordThen(p: string, suffix: string)
  {
    var j := |p| - |suffix|;
    j >= 1 && WordChar(p[j - 1]) && MatchesAt(p, j, suffix)
  }

  /** The meaning of the joined file expression: `p` ends with at least one
      word character followed by a listed suffix. */
  predicate FilePatternMatches(suffixes: seq<string>, p: string)
  {
    exists k :: 0 <= k < |suffixes| && EndsWithWordThen(p, suffixes[k])
  }

  /** `folderIgnoreExp.MatchString(p)`. */
  predicate FolderIgnored(p: string)
  {
    FolderPatternMatches(FoldersToIgnore, p)
  }

  /** `fileIgnoreExp.MatchString(p)`. */
  predicate FileIgnored(p: string)
  {
    FilePatternMatches(FilesToIgnore, p)
  }

  /** Below an ignored folder everything is ignored: the walker never emits a
      descendant of a folder the pattern matches. */
  lemma FolderPatternExtends(names: seq<string>, p: string, q: string)
    requires FolderPatternMatches(names, p)
    ensures FolderPatternMatches(names, p + "/" + q)
  {
    var k, i :| 0 <= k < |names| && 0 <= i <= |p| && SegmentAt(p, i, names[k]);
    var name, p' := names[k], p + "/" + q;
    assert forall j :: 0 <= j < |p| ==> p'[j] == p[j];
    assert i + |name| == |p| ==> p'[i + |name|] == '/';
    assert SegmentAt(p', i, name);
  }

  lemma FolderIgnoredExtends(p: string, q: string)
    requires FolderIgnored(p)
    ensures FolderIgnored(p + "/" + q)
  {
    FolderPatternExtends(FoldersToIgnore, p, q);
  }

  /** A name standing between '/'-delimiters, or at either end, is a
      segment match. */
  lemma SegmentBetween(pre: string, name: string, post: string)
    requires |pre| == 0 || pre[|pre| - 1] == '/'
    requires |post| == 0 || post[0] == '/'
    ensures SegmentAt(pre + name + post, |pre|, name)
  {
    var p := pre + name + post;
    assert forall j :: 0 <= j < |name| ==> p[|pre| + j] == name[j];
    assert |pre| > 0 ==> p[|pre| - 1] == pre[|pre| - 1];
    assert |post| > 0 ==> p[|pre| + |name|] == post[0];
  }

  /** Every listed name, as a whole segment, makes a path ignored. */
  lemma ListedSegmentIgnored(pre: string, k: nat, post: string)
    requires k < |FoldersToIgnore|
    requires |pre| == 0 || pre[|pre| - 1] == '/'
    requires |post| == 0 || post[0] == '/'
    ensures FolderIgnored(pre + FoldersToIgnore[k] + post)
  {
    var name := FoldersToIgnore[k];
    SegmentBetween(pre, name, post);
    assert 0 <= |pre| <= |pre + name + post|;
  }

  /** A suffix after a word character is a `\w+SUFFIX$` match. */
  lemma SuffixAfterWord(stem: string, suffix: string)
    requires |stem| > 0 && WordChar(stem[|stem| - 1])
    ensures EndsWithWordThen(stem + suffix, suffix)
  {
    var p := stem + suffix;
    assert p[|stem| - 1] == stem[|stem| - 1];
    assert forall j :: 0 <= j < |suffix| ==> p[|stem| + j] == suffix[j];
  }

  /** Every listed suffix after a word character makes a path ignored. */
  lemma ListedSuffixIgnored(stem: string, k: nat)
    requires k < |FilesToIgnore|
    requires |stem| > 0 && WordChar(stem[|stem| - 1])
    ensures FileIgnored(stem + FilesToIgnore[k])
  {
    SuffixAfterWord(stem, FilesToIgnore[k]);
  }

  /** "node_modules" as a whole segment makes a path ignored. */
  lemma NodeModulesIgnored(pre: string, post: string)
    requires |pre| == 0 || pre[|pre| - 1] == '/'
    requires |post| == 0 || post[0] == '/'
    ensures FolderIgnored(pre + "node_modules" + post)
  {
    ListedSegmentIgnored(pre, 3, post);
  }

  /** The `init` folder test values for the folder itself, with and without a trailing
      slash, match. */
  lemma InitFolderTestValuesMatchRoot()
    ensures FolderIgnored("/node_modules")
    ensures FolderIgnored("/node_modules/")
  {
    NodeModulesIgnored("/", "");
    assert "/" + "node_modules" + "" == "/node_modules";
    NodeModulesIgnored("/", "/");
    assert "/" + "node_modules" + "/" == "/node_modules/";
  }

  /** The `init` folder test values for a child of the folder, with and without a trailing
      slash, match. */
  lemma InitFolderTestValuesMatchRootChild()
    ensures FolderIgnored("/node_modules/something")
    ensures FolderIgnored("/node_modules/something/")
  {
    NodeModulesIgnored("/", "/something");
    assert "/" + "node_modules" + "/something" == "/node_modules/something";
    NodeModulesIgnored("/", "/something/");
    assert "/" + "node_modules" + "/something/" == "/node_modules/something/";
  }

  /** The `init` folder test values for a nested folder, with and without a trailing
      slash, match. */
  lemma InitFolderTestValuesMatchNested()
    ensures FolderIgnored("/something/node_modules")
    ensures FolderIgnored("/something/node_modules/")
  {
    NodeModulesIgnored("/something/", "");
    assert "/something/" + "node_modules" + "" == "/something/node_modules";
    NodeModulesIgnored("/something/", "/");
    assert "/something/" + "node_modules" + "/" == "/something/node_modules/";
  }

  /** The `init` folder test values for a child of a nested folder, with and without a trailing
      slash, match. */
  lemma InitFolderTestValuesMatchNestedChild()
    ensures FolderIgnored("/something/node_modules/something")
    ensures FolderIgnored("/something/node_modules/something/")
  {
    NodeModulesIgnored("/something/", "/something");
    assert "/something/" + "node_modules" + "/something" == "/something/node_modules/something";
    NodeModulesIgnored("/something/", "/something/");
    assert "/something/" + "node_modules" + "/something/" == "/something/node_modules/something/";
  }

  /** A word character followed by ".pyc" ends an ignored file name. */
  lemma PycIgnored(stem: string)
    requires |stem| > 0 && WordChar(stem[|stem| - 1])
    ensures FileIgnored(stem + ".pyc")
  {
    ListedSuffixIgnored(stem, 0);
  }

  /** The file test values `init` checks with `log.Fatalf` all match. */
  lemma InitFileTestValuesMatch()
    ensures FileIgnored("some_file.pyc")
    ensures FileIgnored("/some_file.pyc")
    ensures FileIgnored("/something/some_file.pyc")
  {
    assert FileIgnored("some_file.pyc") by {
      PycIgnored("some_file");
      assert "some_file" + ".pyc" == "some_file.pyc";
    }
    assert FileIgnored("/some_file.pyc") by {
      PycIgnored("/some_file");
      assert "/some_file" + ".pyc" == "/some_file.pyc";
    }
    assert FileIgnored("/something/some_file.pyc") by {
      PycIgnored("/something/some_file");
      assert "/something/some_file" + ".pyc" == "/something/some_file.pyc";
    }
  }

  /** A bare suffix is not ignored: the suffix must follow a word character. */
  lemma BareSuffixNotIgnored()
    ensures !FileIgnored("/.pyc")
    ensures !FileIgnored(".tmp")
  {
    assert !WordChar('/');
  }

  /** The unescaped `.` is a wildcard: a folder segment "xgit" is ignored
      like ".git", and a file ending in "_pyc" like one ending in ".pyc". */
  lemma DotIsWildcard()
    ensures FolderIgnored("/src/xgit")
    ensures FileIgnored("/src/copyc")
  {
    var git := FoldersToIgnore[1];
    assert git == ".git";
    assert SegmentAt("/src/xgit", 5, git);
    var pyc := FilesToIgnore[0];
    assert EndsWithWordThen("/src/copyc", pyc);
  }
}
