/**
 * `get_path_hierarchy`: turns the path of a page URL into its cumulative
 * prefixes, which the crawler stores as the page's section tags.
 *
 * The Python function first runs `urlparse(url).path`; that library call is not
 * modelled, so everything here starts from the path itself.
 */
module PathHierarchy {
  import opened Text

  /** The pieces the loop walks over: `path.strip('/').split('/')`. */
  function Segments(path: string): (segs: seq<string>)
    ensures |segs| >= 1
  {
    Split(Strip(path, '/'), '/')
  }

  /**
   * The meaning of the result: no sections for an empty path, otherwise one
   * section per segment, section `k` being segments `0..k` joined by `/`.
   */
  function Hierarchy(path: string): (sections: seq<string>)
    ensures sections == [] <==> path == ""
  {
    if path == "" then [] else Prefixes(Segments(path))
  }

  /** Section `k` of `segs` is segments `0..k` joined by `/`. */
  function Prefixes(segs: seq<string>): (sections: seq<string>)
    ensures |sections| == |segs|
  {
    seq(|segs|, k requires 0 <= k < |segs| => Join(segs[..k + 1], '/'))
  }

  /**
   * `get_path_hierarchy` from the parsed path on: an empty path gives no
   * sections; otherwise the stripped path is split on `/` and the loop below
   * runs over its segments.
   */
  method GetPathHierarchy(path: string) returns (result: seq<string>)
    ensures result == Hierarchy(path)
  {
    if path == "" {
      return [];
    }
    var segs := Split(Strip(path, '/'), '/');
    result := AccumulatePrefixes(segs);
  }

  /**
   * The loop of `get_path_hierarchy`: a `prefix` accumulator grows by one
   * segment, is appended to the result, then gets a trailing `/`.
   */
  method AccumulatePrefixes(segs: seq<string>) returns (result: seq<string>)
    ensures result == Prefixes(segs)
  {
    var prefix := "";
    result := [];
    for i := 0 to |segs|
      invariant |result| == i
      invariant forall k :: 0 <= k < i ==> result[k] == Join(segs[..k + 1], '/')
      invariant prefix == if i == 0 then "" else Join(segs[..i], '/') + "/"
    {
      prefix := prefix + segs[i];
      if i == 0 {
        assert segs[..1] == [segs[0]];
      } else {
        JoinSnoc(segs, i);
      }
      result := result + [prefix];
      prefix := prefix + "/";
    }
  }

  /** One more segment extends the joined prefix by `/` and that segment. */
  lemma JoinSnoc(segs: seq<string>, i: nat)
    requires 1 <= i < |segs|
    ensures Join(segs[..i + 1], '/') == Join(segs[..i], '/') + "/" + segs[i]
  {
    assert segs[..i + 1] == segs[..i] + [segs[i]];
    JoinAppend(segs[..i], [segs[i]], '/');
  }

  /** Section `k` of a non-empty path, read off the segments. */
  lemma SectionAt(path: string, k: nat)
    requires path != "" && k < |Segments(path)|
    ensures |Hierarchy(path)| == |Segments(path)|
    ensures Hierarchy(path)[k] == Join(Segments(path)[..k + 1], '/')
  {
  }

  /** A non-empty path has one section per `/` in the stripped path, plus one. */
  lemma HierarchyLength(path: string)
    requires path != ""
    ensures |Hierarchy(path)| == Count(Strip(path, '/'), '/') + 1
  {
    SectionAt(path, 0);
    SplitCount(Strip(path, '/'), '/');
  }

  /**
   * The first section is the first segment, each later section is the one
   * before it, a `/` and the next segment, and the last one is the whole
   * stripped path.
   */
  lemma HierarchyChain(path: string)
    requires path != ""
    ensures Hierarchy(path)[0] == Segments(path)[0]
    ensures forall k :: 0 <= k < |Hierarchy(path)| - 1 ==>
      Hierarchy(path)[k + 1] == Hierarchy(path)[k] + "/" + Segments(path)[k + 1]
    ensures Hierarchy(path)[|Hierarchy(path)| - 1] == Strip(path, '/')
  {
    var segs := Segments(path);
    var n := |segs|;
    SectionAt(path, 0);
    assert segs[..1] == [segs[0]];
    forall k | 0 <= k < n - 1
      ensures Hierarchy(path)[k + 1] == Hierarchy(path)[k] + "/" + segs[k + 1]
    {
      SectionAt(path, k);
      SectionAt(path, k + 1);
      JoinSnoc(segs, k + 1);
    }
    SectionAt(path, n - 1);
    assert segs[..n] == segs;
    JoinSplit(Strip(path, '/'), '/');
  }

  /** A non-empty path made of slashes only, such as `"/"`, yields one empty section. */
  lemma AllSlashPath(path: string)
    requires path != ""
    requires forall i :: 0 <= i < |path| ==> path[i] == '/'
    ensures Hierarchy(path) == [""]
  {
    StripShape(path, '/');
    assert Split("", '/') == [""];
    assert Segments(path) == [""];
    SectionAt(path, 0);
    assert [""][..1] == [""];
  }

  /**
   * Each section is a prefix of the stripped path that ends where the path
   * ends or just before a `/`, and section `k` holds exactly `k` slashes.
   */
  lemma SectionsAreCuts(path: string, k: nat)
    requires path != "" && k < |Hierarchy(path)|
    ensures |Hierarchy(path)[k]| <= |Strip(path, '/')|
    ensures Hierarchy(path)[k] == Strip(path, '/')[..|Hierarchy(path)[k]|]
    ensures |Hierarchy(path)[k]| == |Strip(path, '/')| || Strip(path, '/')[|Hierarchy(path)[k]|] == '/'
    ensures Count(Hierarchy(path)[k], '/') == k
  {
    var s, segs := Strip(path, '/'), Segments(path);
    JoinSplit(s, '/');
    SplitSepFree(s, '/');
    PrefixIsCut(segs, k);
  }

  /** The same facts about separator-free pieces and their joined text. */
  lemma PrefixIsCut(segs: seq<string>, k: nat)
    requires k < |segs|
    requires forall i :: 0 <= i < |segs| ==> '/' !in segs[i]
    ensures |Prefixes(segs)[k]| <= |Join(segs, '/')|
    ensures Prefixes(segs)[k] == Join(segs, '/')[..|Prefixes(segs)[k]|]
    ensures |Prefixes(segs)[k]| == |Join(segs, '/')| || Join(segs, '/')[|Prefixes(segs)[k]|] == '/'
    ensures Count(Prefixes(segs)[k], '/') == k
  {
    var head := segs[..k + 1];
    assert Prefixes(segs)[k] == Join(head, '/');
    assert forall i :: 0 <= i < |head| ==> head[i] == segs[i];
    JoinCount(head, '/');
    if k + 1 < |segs| {
      assert head + segs[k + 1..] == segs;
      JoinCut(head, segs[k + 1..]);
    } else {
      assert head == segs;
    }
  }

  /** The join of the first pieces is cut off the whole join right before a `/`. */
  lemma JoinCut(xs: seq<string>, ys: seq<string>)
    requires |xs| >= 1 && |ys| >= 1
    ensures |Join(xs, '/')| < |Join(xs + ys, '/')|
    ensures Join(xs + ys, '/')[..|Join(xs, '/')|] == Join(xs, '/')
    ensures Join(xs + ys, '/')[|Join(xs, '/')|] == '/'
  {
    JoinAppend(xs, ys, '/');
    var a, b := Join(xs, '/'), Join(ys, '/');
    assert Join(xs + ys, '/') == a + (['/'] + b);
  }

  /**
   * Conversely, every cut of the stripped path just before a `/`, and the whole
   * stripped path, is one of the sections.
   */
  lemma CutsAreSections(path: string, i: nat)
    requires path != ""
    requires i == |Strip(path, '/')| || (i < |Strip(path, '/')| && Strip(path, '/')[i] == '/')
    ensures Strip(path, '/')[..i] in Hierarchy(path)
  {
    JoinSplit(Strip(path, '/'), '/');
    SplitSepFree(Strip(path, '/'), '/');
    CutIsPrefix(Segments(path), i);
  }

  /** The same fact about separator-free pieces and their joined text. */
  lemma CutIsPrefix(segs: seq<string>, i: nat)
    requires |segs| >= 1
    requires forall k :: 0 <= k < |segs| ==> '/' !in segs[k]
    requires var s := Join(segs, '/'); i == |s| || (i < |s| && s[i] == '/')
    ensures Join(segs, '/')[..i] in Prefixes(segs)
  {
    var s, r := Join(segs, '/'), Prefixes(segs);
    JoinCount(segs, '/');
    if i == |s| {
      assert segs[..|segs|] == segs;
      assert r[|r| - 1] == s;
      assert s[..i] == s;
    } else {
      var k := Count(s[..i], '/');
      assert s == s[..i] + s[i..];
      CountAppend(s[..i], s[i..], '/');
      assert s[i..][0] == '/';
      assert k < |r|;
      PrefixIsCut(segs, k);
      var j := |r[k]|;
      if j < i {
        SlashBetween(s, j, i);
      } else if i < j {
        SlashBetween(s, i, j);
      }
      assert s[..i] == r[k];
    }
  }

  /** A `/` at position `j` adds one to the slash count of every longer prefix. */
  lemma SlashBetween(s: string, j: nat, i: nat)
    requires j < i <= |s| && s[j] == '/'
    ensures Count(s[..i], '/') > Count(s[..j], '/')
  {
    assert s[..i] == s[..j] + s[j..i];
    CountAppend(s[..j], s[j..i], '/');
    assert s[j..i][0] == '/';
  }

  /** The docstring's `get_path_hierarchy("/foo/bar")`. */
  lemma DocExampleLeadingSlash()
    ensures Hierarchy("/foo/bar") == ["foo", "foo/bar"]
  {
    assert TrimStart("/foo/bar", '/') == "foo/bar";
    HierarchyOf("/foo/bar", "foo/bar", ["foo", "bar"]);
    PrefixesOfTwo("foo", "bar");
  }

  /** The docstring's `get_path_hierarchy("foo")`. */
  lemma DocExampleBare()
    ensures Hierarchy("foo") == ["foo"]
  {
    HierarchyOf("foo", "foo", ["foo"]);
    PrefixesOfOne("foo");
  }

  /** The docstring's `get_path_hierarchy("/foo/")`. */
  lemma DocExampleBothSlashes()
    ensures Hierarchy("/foo/") == ["foo"]
  {
    assert TrimStart("/foo/", '/') == "foo/";
    HierarchyOf("/foo/", "foo", ["foo"]);
    PrefixesOfOne("foo");
  }

  /** The docstring's `get_path_hierarchy("foo/bar/")`. */
  lemma DocExampleTrailingSlash()
    ensures Hierarchy("foo/bar/") == ["foo", "foo/bar"]
  {
    HierarchyOf("foo/bar/", "foo/bar", ["foo", "bar"]);
    PrefixesOfTwo("foo", "bar");
  }

  /** The sections of a concrete path, from its stripped form and its segments. */
  lemma HierarchyOf(path: string, stripped: string, segs: seq<string>)
    requires path != "" && Strip(path, '/') == stripped
    requires |segs| >= 1 && forall i :: 0 <= i < |segs| ==> '/' !in segs[i]
    requires Join(segs, '/') == stripped
    ensures Hierarchy(path) == Prefixes(segs)
  {
    SplitJoin(segs, '/');
  }

  lemma PrefixesOfOne(a: string)
    ensures Prefixes([a]) == [a]
  {
    assert [a][..1] == [a];
  }

  lemma PrefixesOfTwo(a: string, b: string)
    ensures Prefixes([a, b]) == [a, a + "/" + b]
  {
    var segs := [a, b];
    assert segs[..1] == [a];
    assert segs[..2] == segs;
    assert Prefixes(segs)[1] == Join(segs, '/');
  }
}
