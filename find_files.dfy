/** find_files: the paths under a directory whose file names end with one
    of the given extensions. The directory walk itself is I/O; it is taken
    as its output, the (root, file names) pairs os.walk yields, in order. */
module FindFiles {

  /** One directory visited by os.walk: its path and the names of the
      plain files in it, in the order the walk lists them. */
  datatype WalkEntry = WalkEntry(root: string, files: seq<string>)

  /** suffix is a (case-sensitive) suffix of s, as str.endswith tests it. */
  predicate IsSuffix(suffix: string, s: string)
  {
    |suffix| <= |s| && s[|s| - |suffix|..] == suffix
  }

  /** name.endswith(tuple(exts)): the extensions are tried in order and the
      first one that is a suffix of name decides; an empty tuple accepts
      nothing. */
  function EndsWithAny(name: string, exts: seq<string>): (r: bool)
    ensures r <==> exists k :: 0 <= k < |exts| && IsSuffix(exts[k], name)
  {
    if exts == [] then false
    else if IsSuffix(exts[0], name) then true
    else
      var rest := EndsWithAny(name, exts[1..]);
      assert forall k :: 1 <= k < |exts| ==> exts[k] == exts[1..][k - 1];
      rest
  }

  /** The names that end with one of the extensions, in their order. */
  function FilterNames(names: seq<string>, exts: seq<string>): (r: seq<string>)
    ensures |r| <= |names|
  {
    if names == [] then []
    else
      var last := names[|names| - 1];
      FilterNames(names[..|names| - 1], exts) + (if EndsWithAny(last, exts) then [last] else [])
  }

  /** The filter keeps a name exactly when it ends with an extension. */
  lemma {:induction false} FilterMembers(names: seq<string>, exts: seq<string>, x: string)
    ensures x in FilterNames(names, exts) <==> x in names && EndsWithAny(x, exts)
  {
    if names != [] {
      var init := names[..|names| - 1];
      var last := names[|names| - 1];
      FilterMembers(init, exts, x);
      assert names == init + [last];
    }
  }

  /** The filter keeps order: filtering a concatenation filters each part
      and concatenates the results. Together with FilterSingle this pins
      the filter down. */
  lemma {:induction false} FilterAppend(a: seq<string>, b: seq<string>, exts: seq<string>)
    ensures FilterNames(a + b, exts) == FilterNames(a, exts) + FilterNames(b, exts)
    decreases |b|
  {
    if b == [] {
      assert a + b == a;
    } else {
      var binit := b[..|b| - 1];
      FilterAppend(a, binit, exts);
      assert (a + b)[..|a + b| - 1] == a + binit;
      assert (a + b)[|a + b| - 1] == b[|b| - 1];
    }
  }

  /** A single name is kept exactly when it ends with an extension. */
  lemma FilterSingle(x: string, exts: seq<string>)
    ensures FilterNames([x], exts) == if EndsWithAny(x, exts) then [x] else []
  {
    assert [x][..0] == [];
  }

  /** os.path.join(root, name) on a POSIX system: a name that starts with
      '/' replaces the root; otherwise a '/' is put between them unless the
      root is empty or already ends with one. */
  function PathJoin(root: string, name: string): (p: string)
    ensures IsSuffix(name, p)
  {
    if name != [] && name[0] == '/' then name
    else if root == [] || root[|root| - 1] == '/' then root + name
    else root + "/" + name
  }

  /** A suffix of a suffix is a suffix. */
  lemma SuffixTrans(a: string, b: string, c: string)
    requires IsSuffix(a, b) && IsSuffix(b, c)
    ensures IsSuffix(a, c)
  {
    assert c[|c| - |a|..] == c[|c| - |b|..][|b| - |a|..];
  }

  /** The joined path of a kept name still ends with one of the extensions. */
  lemma JoinedPathMatches(root: string, name: string, exts: seq<string>)
    requires EndsWithAny(name, exts)
    ensures EndsWithAny(PathJoin(root, name), exts)
  {
    var k :| 0 <= k < |exts| && IsSuffix(exts[k], name);
    SuffixTrans(exts[k], name, PathJoin(root, name));
  }

  /** The paths of the names under root. */
  function JoinAll(root: string, names: seq<string>): (r: seq<string>)
    ensures |r| == |names|
  {
    if names == [] then []
    else JoinAll(root, names[..|names| - 1]) + [PathJoin(root, names[|names| - 1])]
  }

  lemma {:induction false} JoinAllAt(root: string, names: seq<string>, j: nat)
    requires j < |names|
    ensures JoinAll(root, names)[j] == PathJoin(root, names[j])
    decreases |names|
  {
    if j < |names| - 1 {
      JoinAllAt(root, names[..|names| - 1], j);
    }
  }

  /** What find_files yields for one directory: the joined paths of its
      kept file names. */
  function EntryPaths(e: WalkEntry, exts: seq<string>): seq<string>
  {
    JoinAll(e.root, FilterNames(e.files, exts))
  }

  /** What find_files yields for the directories of walk, in order. */
  function Found(walk: seq<WalkEntry>, exts: seq<string>): seq<string>
  {
    if walk == [] then [] else Found(walk[..|walk| - 1], exts) + EntryPaths(walk[|walk| - 1], exts)
  }

  /** Every yielded path comes from a file of some directory whose name
      ends with an extension, is joined to that directory's path, and so
      ends with that extension too. */
  lemma {:induction false} FoundSound(walk: seq<WalkEntry>, exts: seq<string>, p: string)
    requires p in Found(walk, exts)
    ensures exists i, name ::
      0 <= i < |walk| && name in walk[i].files && EndsWithAny(name, exts) && p == PathJoin(walk[i].root, name)
    ensures EndsWithAny(p, exts)
    decreases |walk|
  {
    var init := walk[..|walk| - 1];
    var last := walk[|walk| - 1];
    var kept := FilterNames(last.files, exts);
    assert Found(walk, exts) == Found(init, exts) + JoinAll(last.root, kept);
    if p in Found(init, exts) {
      FoundSound(init, exts, p);
      var i, name :| 0 <= i < |init| && name in init[i].files && EndsWithAny(name, exts)
        && p == PathJoin(init[i].root, name);
      assert init[i] == walk[i];
    } else {
      var j :| 0 <= j < |kept| && JoinAll(last.root, kept)[j] == p;
      JoinAllAt(last.root, kept, j);
      assert kept[j] in kept;
      FilterMembers(last.files, exts, kept[j]);
      assert walk[|walk| - 1] == last;
      JoinedPathMatches(last.root, kept[j], exts);
    }
  }

  /** Every file whose name ends with an extension is yielded, joined to
      the path of its directory. */
  lemma {:induction false} FoundComplete(walk: seq<WalkEntry>, exts: seq<string>, i: nat, name: string)
    requires i < |walk| && name in walk[i].files && EndsWithAny(name, exts)
    ensures PathJoin(walk[i].root, name) in Found(walk, exts)
    decreases |walk|
  {
    var init := walk[..|walk| - 1];
    var last := walk[|walk| - 1];
    if i < |walk| - 1 {
      assert init[i] == walk[i];
      FoundComplete(init, exts, i, name);
    } else {
      var kept := FilterNames(last.files, exts);
      assert Found(walk, exts) == Found(init, exts) + JoinAll(last.root, kept);
      FilterMembers(last.files, exts, name);
      var j :| 0 <= j < |kept| && kept[j] == name;
      JoinAllAt(last.root, kept, j);
    }
  }

  /** The directories' results follow each other in walk order. */
  lemma FoundSnoc(walk: seq<WalkEntry>, e: WalkEntry, exts: seq<string>)
    ensures Found(walk + [e], exts) == Found(walk, exts) + EntryPaths(e, exts)
  {
    assert (walk + [e])[..|walk|] == walk;
  }

  lemma {:induction false} FoundAppend(a: seq<WalkEntry>, b: seq<WalkEntry>, exts: seq<string>)
    ensures Found(a + b, exts) == Found(a, exts) + Found(b, exts)
    decreases |b|
  {
    if b == [] {
      assert a + b == a;
    } else {
      var binit, e := b[..|b| - 1], b[|b| - 1];
      var ea := EntryPaths(e, exts);
      assert Found(a + b, exts) == Found(a + binit, exts) + ea by {
        assert a + b == (a + binit) + [e];
        FoundSnoc(a + binit, e, exts);
      }
      assert Found(b, exts) == Found(binit, exts) + ea by {
        assert b == binit + [e];
        FoundSnoc(binit, e, exts);
      }
      FoundAppend(a, binit, exts);
    }
  }

  /** One more file name: its path is added after the others exactly when
      the name is kept. */
  lemma KeptStep(root: string, files: seq<string>, j: nat, exts: seq<string>)
    requires j < |files|
    ensures JoinAll(root, FilterNames(files[..j + 1], exts)) ==
      JoinAll(root, FilterNames(files[..j], exts))
        + (if EndsWithAny(files[j], exts) then [PathJoin(root, files[j])] else [])
  {
    var kept := FilterNames(files[..j], exts);
    assert FilterNames(files[..j + 1], exts) ==
      kept + (if EndsWithAny(files[j], exts) then [files[j]] else []) by {
      assert files[..j + 1][..j] == files[..j];
    }
    if EndsWithAny(files[j], exts) {
      assert (kept + [files[j]])[..|kept|] == kept;
      assert JoinAll(root, kept + [files[j]]) == JoinAll(root, kept) + [PathJoin(root, files[j])];
    } else {
      assert kept + [] == kept;
    }
  }

  /** One more directory: its paths follow those of the directories before. */
  lemma FoundStep(walk: seq<WalkEntry>, i: nat, exts: seq<string>)
    requires i < |walk|
    ensures Found(walk[..i + 1], exts) == Found(walk[..i], exts) + EntryPaths(walk[i], exts)
  {
    assert walk[..i + 1][..i] == walk[..i];
  }

  /** The inner loop of find_files for one directory: the joined paths of
      the names that end with an extension, in the order of the names. */
  method KeptPaths(root: string, files: seq<string>, exts: seq<string>) returns (paths: seq<string>)
    ensures paths == JoinAll(root, FilterNames(files, exts))
  {
    paths := [];
    for j := 0 to |files|
      invariant paths == JoinAll(root, FilterNames(files[..j], exts))
    {
      KeptStep(root, files, j, exts);
      if EndsWithAny(files[j], exts) {
        paths := paths + [PathJoin(root, files[j])];
      }
    }
    assert files[..|files|] == files;
  }

  /** find_files(directory, extensions), collected into a list as main
      does: the outer loop over the directories of the walk. */
  method FindFiles(walk: seq<WalkEntry>, exts: seq<string>) returns (paths: seq<string>)
    ensures paths == Found(walk, exts)
  {
    paths := [];
    for i := 0 to |walk|
      invariant paths == Found(walk[..i], exts)
    {
      var kept := KeptPaths(walk[i].root, walk[i].files, exts);
      FoundStep(walk, i, exts);
      paths := paths + kept;
    }
    assert walk[..|walk|] == walk;
  }

  // ----- Concrete cases -----

  /** Matching is by suffix and case-sensitive: "A.PY" does not end with
      ".py", and an extension without its dot matches too. */
  lemma CaseSensitiveExample()
    ensures !EndsWithAny("A.PY", [".py"])
    ensures EndsWithAny("a.py", ["py"])
    ensures !EndsWithAny("a.py", [])
  {
    assert IsSuffix("py", "a.py") by {
      assert "a.py"[2..] == "py";
    }
  }

  /** With extensions [".py"], a directory holding a.py, a_test.py and
      b.txt gives a.py and a_test.py: every name ending in .py is kept. */
  lemma FilterExample()
    ensures FilterNames(["a.py", "a_test.py", "b.txt"], [".py"]) == ["a.py", "a_test.py"]
  {
    ExampleSuffixes();
    FilterKeepsTwo("a.py", "a_test.py", "b.txt", [".py"]);
  }

  lemma FilterKeepsTwo(x: string, y: string, z: string, exts: seq<string>)
    requires EndsWithAny(x, exts) && EndsWithAny(y, exts) && !EndsWithAny(z, exts)
    ensures FilterNames([x, y, z], exts) == [x, y]
  {
    FilterSingle(x, exts);
    FilterSingle(y, exts);
    FilterSingle(z, exts);
    FilterAppend([x], [y], exts);
    assert [x] + [y] == [x, y];
    FilterAppend([x, y], [z], exts);
    assert [x, y] + [z] == [x, y, z];
    assert [x, y] + [] == [x, y];
  }

  lemma ExampleSuffixes()
    ensures EndsWithAny("a.py", [".py"]) && EndsWithAny("a_test.py", [".py"])
    ensures !EndsWithAny("b.txt", [".py"])
  {
    assert "a.py"[1..] == ".py";
    assert "a_test.py"[6..] == ".py";
    assert "b.txt"[2..] != ".py";
  }

  /** Joining follows os.path.join. */
  lemma PathJoinExamples()
    ensures PathJoin("src", "a.py") == "src/a.py"
    ensures PathJoin("src/", "a.py") == "src/a.py"
    ensures PathJoin("", "a.py") == "a.py"
    ensures PathJoin("src", "/abs.py") == "/abs.py"
  {
  }
}
