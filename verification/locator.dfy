/**
  `find_file`: walk a directory tree top-down and return the path of the first file with a
  given name. The walk is not performed here; it is given as the sequence of directories in the
  order the walk visits them, each with the names of the files it holds.
*/
module Locator {
  import opened Common

  /** One directory of the walk: its (absolute) path and the names of the files directly in it. */
  datatype DirEntry = DirEntry(root: Path, files: seq<string>)

  /** `os.path.join(root, name)` with separator `sep`: a separator is added unless `root` ends in one. */
  function Join(root: Path, name: string, sep: char): (p: Path)
    ensures |name| < |p|
    ensures p[|p| - |name| - 1] == sep
    ensures p[|p| - |name|..] == name
  {
    if |root| > 0 && root[|root| - 1] == sep then root + name else root + [sep] + name
  }

  /** The last component of `p`: the text after its last separator (all of `p` if it has none). */
  function LastComponent(p: Path, sep: char): (c: string)
    ensures |c| <= |p|
    ensures p[|p| - |c|..] == c
    ensures sep !in c
    ensures |c| == |p| || p[|p| - |c| - 1] == sep
  {
    if |p| == 0 || p[|p| - 1] == sep then []
    else LastComponent(p[..|p| - 1], sep) + [p[|p| - 1]]
  }

  /** After a separator, the last component is whatever follows, provided it holds no separator. */
  lemma {:induction false} LastComponentAfterSeparator(prefix: Path, name: string, sep: char)
    requires |prefix| > 0 && prefix[|prefix| - 1] == sep
    requires sep !in name
    ensures LastComponent(prefix + name, sep) == name
    decreases |name|
  {
    var p := prefix + name;
    if |name| > 0 {
      var init := name[..|name| - 1];
      assert p[..|p| - 1] == prefix + init;
      assert p[|p| - 1] == name[|name| - 1];
      LastComponentAfterSeparator(prefix, init, sep);
      assert name == init + [name[|name| - 1]];
    } else {
      assert p == prefix;
    }
  }

  /** The path built by `Join` has `name` as its last component. */
  lemma LastComponentOfJoin(root: Path, name: string, sep: char)
    requires sep !in name
    ensures LastComponent(Join(root, name, sep), sep) == name
  {
    if |root| > 0 && root[|root| - 1] == sep {
      LastComponentAfterSeparator(root, name, sep);
    } else {
      assert Join(root, name, sep) == (root + [sep]) + name;
      LastComponentAfterSeparator(root + [sep], name, sep);
    }
  }

  /** `p` ends with `suffix`. */
  predicate EndsWith(p: Path, suffix: string) {
    |p| >= |suffix| && p[|p| - |suffix|..] == suffix
  }

  /**
    Reference definition of the search: the first directory of the walk that holds a file named
    `filename` gives the answer; no such directory gives `None`. A found path ends with the name
    that was searched for.
  */
  function FindFirst(walk: seq<DirEntry>, filename: string, sep: char): (r: Option<Path>)
    ensures r.Some? ==> EndsWith(r.value, filename)
    decreases |walk|
  {
    if |walk| == 0 then None
    else if filename in walk[0].files then Some(Join(walk[0].root, filename, sep))
    else FindFirst(walk[1..], filename, sep)
  }

  /** Directory `i` is the first in walk order that holds a file named `filename`. */
  ghost predicate FirstHolder(walk: seq<DirEntry>, filename: string, i: int) {
    && 0 <= i < |walk|
    && filename in walk[i].files
    && forall k :: 0 <= k < i ==> filename !in walk[k].files
  }

  /** The search fails exactly when no directory of the walk holds a file with that name. */
  lemma {:induction false} FindFirstNoneIffAbsent(walk: seq<DirEntry>, filename: string, sep: char)
    ensures FindFirst(walk, filename, sep).None?
        <==> forall i :: 0 <= i < |walk| ==> filename !in walk[i].files
    decreases |walk|
  {
    if |walk| > 0 && filename !in walk[0].files {
      FindFirstNoneIffAbsent(walk[1..], filename, sep);
      assert forall i :: 1 <= i < |walk| ==> walk[i] == walk[1..][i - 1];
    }
  }

  /** When some directory holds the file, the search returns the path in the first such directory. */
  lemma {:induction false} FindFirstReturnsFirstHolder(walk: seq<DirEntry>, filename: string, sep: char, i: int)
    requires FirstHolder(walk, filename, i)
    ensures FindFirst(walk, filename, sep) == Some(Join(walk[i].root, filename, sep))
    decreases i
  {
    if i > 0 {
      assert filename !in walk[0].files;
      forall k | 0 <= k < i - 1
        ensures filename !in walk[1..][k].files
      {
        assert walk[1..][k] == walk[k + 1];
      }
      FindFirstReturnsFirstHolder(walk[1..], filename, sep, i - 1);
    }
  }

  /** A found path names a file called `filename`: its last component is `filename`. */
  lemma {:induction false} FoundPathEndsInFilename(walk: seq<DirEntry>, filename: string, sep: char)
    requires sep !in filename
    requires FindFirst(walk, filename, sep).Some?
    ensures LastComponent(FindFirst(walk, filename, sep).value, sep) == filename
    decreases |walk|
  {
    if filename in walk[0].files {
      LastComponentOfJoin(walk[0].root, filename, sep);
    } else {
      FoundPathEndsInFilename(walk[1..], filename, sep);
    }
  }

  /**
    `find_file`: the nested loops over directories and their files, returning as soon as a file
    named `filename` is seen. The result is the path of the first such file in walk order.
  */
  method FindFile(walk: seq<DirEntry>, filename: string, sep: char) returns (r: Option<Path>)
    ensures r == FindFirst(walk, filename, sep)
  {
    var i := 0;
    while i < |walk|
      invariant 0 <= i <= |walk|
      invariant FindFirst(walk[i..], filename, sep) == FindFirst(walk, filename, sep)
    {
      var names := walk[i].files;
      var j := 0;
      while j < |names|
        invariant 0 <= j <= |names|
        invariant filename !in names[..j]
      {
        if names[j] == filename {
          assert walk[i..][0] == walk[i];
          return Some(Join(walk[i].root, filename, sep));
        }
        assert names[..j + 1] == names[..j] + [names[j]];
        j := j + 1;
      }
      assert names[..j] == names;
      assert walk[i..][1..] == walk[i + 1..];
      i := i + 1;
    }
    assert walk[i..] == [];
    return None;
  }
}
