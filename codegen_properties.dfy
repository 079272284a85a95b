/**
 * What the code generator promises: which paths it selects, how it rewrites
 * them, where the files land and what ends up in them.
 */
module CodegenProperties {
  import opened GoStrings
  import opened Files
  import opened Codegen

  // ---------------------------------------------------------------- selection

  /** A tag followed by a dot begins the path: the tag is its prefix and a dot comes next. */
  lemma DotAfterTag(path: string, t: string)
    requires StartsWith(path, t + ".")
    ensures |t| < |path| && path[..|t|] == t && path[|t|] == '.'
  {
    assert (t + ".")[..|t|] == t;
    assert path[|t|] == (t + ".")[|t|];
  }

  /** No two distinct dot-free tags can both begin a path followed by a dot. */
  lemma TagPrefixUnique(path: string, a: string, b: string)
    requires '.' !in a && '.' !in b
    requires StartsWith(path, a + ".") && StartsWith(path, b + ".")
    ensures a == b
  {
    DotAfterTag(path, a);
    DotAfterTag(path, b);
  }

  /** The recognised technology a tagged path belongs to. */
  lemma TechOf(path: string) returns (t: string)
    requires HasTechPrefix(path)
    ensures t in Techs && '.' !in t && StartsWith(path, t + ".")
  {
    PrefixedByAnyMeans(path, Techs);
    var i :| 0 <= i < |Techs| && StartsWith(path, Techs[i] + ".");
    t := Techs[i];
    assert forall k :: 0 <= k < |Techs| ==> '.' !in Techs[k];
  }

  /** With an empty stack exactly the paths without a technology prefix are needed. */
  lemma NeededWithEmptyStack(projectName: string, path: string)
    ensures Generator(projectName, []).Needed(path) <==> !HasTechPrefix(path)
  {
  }

  /**
   * A path tagged with a recognised technology is needed exactly when that
   * technology is in a stack of dot-free tags.
   */
  lemma NeededIffTagInStack(g: Generator, path: string, t: string)
    requires t in Techs && StartsWith(path, t + ".")
    requires forall i :: 0 <= i < |g.techStack| ==> '.' !in g.techStack[i]
    ensures g.Needed(path) <==> t in g.techStack
  {
    assert '.' !in t;
    assert HasTechPrefix(path) by {
      HasTechPrefixMeans(path);
    }
    g.NeededMeans(path);
    if g.Needed(path) {
      var i :| 0 <= i < |g.techStack| && StartsWith(path, g.techStack[i] + ".");
      TagPrefixUnique(path, t, g.techStack[i]);
    }
    if t in g.techStack {
      var i :| 0 <= i < |g.techStack| && g.techStack[i] == t;
      assert StartsWith(path, g.techStack[i] + ".");
    }
  }

  /** A stack of dot-free tags none of which is recognised selects like the empty stack. */
  lemma UnrecognisedTagsSelectNothing(g: Generator, path: string)
    requires forall i :: 0 <= i < |g.techStack| ==> '.' !in g.techStack[i] && g.techStack[i] !in Techs
    ensures g.Needed(path) <==> !HasTechPrefix(path)
  {
    g.NeededMeans(path);
    if HasTechPrefix(path) && g.Needed(path) {
      var t := TechOf(path);
      var i :| 0 <= i < |g.techStack| && StartsWith(path, g.techStack[i] + ".");
      TagPrefixUnique(path, t, g.techStack[i]);
      assert false;
    }
  }

  /** A tag containing a dot can still select a tagged path although it is not recognised. */
  lemma DottedTagSelects()
    ensures Generator("demo", ["react.native"]).Needed("react.native.json")
  {
    assert StartsWith("react.native.json", "react.");
    assert StartsWith("react.native.json", "react.native.");
  }

  // ---------------------------------------------------------------- rewriting

  /** Tags whose pattern occurs nowhere in the path leave it unchanged. */
  lemma {:induction false} RewriteWithoutPattern(path: string, tags: seq<string>)
    requires forall i :: 0 <= i < |tags| ==> !Contains(path, tags[i] + ".")
    ensures Rewrite(path, tags) == path
    decreases |tags|
  {
    if |tags| > 0 {
      assert ReplaceFirst(path, tags[0] + ".", "") == path;
      assert forall i :: 0 <= i < |tags| - 1 ==> tags[1..][i] == tags[i + 1];
      RewriteWithoutPattern(path, tags[1..]);
    }
  }

  /** A path that begins with the first tag and a dot loses exactly that prefix. */
  lemma RewriteLeadingTag(path: string, tags: seq<string>)
    requires |tags| > 0 && StartsWith(path, tags[0] + ".")
    ensures Rewrite(path, tags) == Rewrite(path[|tags[0]| + 1..], tags[1..])
  {
    var pat := tags[0] + ".";
    ReplaceFirstPrefix(path, pat, "");
    assert "" + path[|pat|..] == path[|tags[0]| + 1..];
  }

  /**
   * A dot-free tag followed by a dot, placed after text that does not contain
   * that pattern, does not occur earlier than where it was placed.
   */
  lemma NoEarlierTag(dir: string, t: string, rest: string, j: int)
    requires '.' !in t && !Contains(dir, t + ".")
    requires 0 <= j < |dir|
    ensures !Occurs(dir + (t + ".") + rest, t + ".", j)
  {
    var pat := t + ".";
    var s := dir + pat + rest;
    if j + |pat| <= |dir| {
      assert s[j..j + |pat|] == dir[j..j + |pat|];
      IndexFirst(dir, pat);
      assert !Occurs(dir, pat, j);
    } else if j + |pat| <= |s| {
      var e := j + |pat| - 1;
      assert s[e] == t[e - |dir|] && t[e - |dir|] in t;
      assert pat[|pat| - 1] == '.';
      assert s[j..j + |pat|][|pat| - 1] != pat[|pat| - 1];
    }
  }

  /**
   * The deletion is not limited to a prefix: a dot-free tag followed by a dot
   * is removed from the middle of a path when it does not occur earlier.
   */
  lemma RewriteTagInsidePath(dir: string, t: string, rest: string)
    requires '.' !in t && !Contains(dir, t + ".")
    ensures Rewrite(dir + t + "." + rest, [t]) == dir + rest
  {
    var pat := t + ".";
    var s := dir + pat + rest;
    assert dir + t + "." + rest == s;
    assert Occurs(s, pat, |dir|) by {
      assert s[|dir|..|dir| + |pat|] == pat;
    }
    forall j | 0 <= j < |dir|
      ensures !Occurs(s, pat, j)
    {
      NoEarlierTag(dir, t, rest, j);
    }
    IndexIsFirst(s, pat, |dir|);
    assert ReplaceFirst(s, pat, "") == dir + rest by {
      assert s[..|dir|] == dir;
      assert s[|dir| + |pat|..] == rest;
    }
    assert [t][1..] == [];
  }

  // ---------------------------------------------------------------- output paths

  /** The file is its directory, the separator and the last segment, which holds no slash. */
  lemma OutputPathShape(root: string, rel: string, sep: char)
    ensures var e := Elements(root, rel);
      && OutputPath(root, rel, sep) == OutputDir(root, rel, sep) + [sep] + e[|e| - 1]
      && !Contains(e[|e| - 1], "/")
  {
    var e := Elements(root, rel);
    assert e == e[..|e| - 1] + [e[|e| - 1]];
    JoinSnoc(e[..|e| - 1], e[|e| - 1], [sep]);
    SplitPiecesLackSeparator(rel, "/");
    assert e[|e| - 1] == Split(rel, "/")[|e| - 2];
  }

  /** With "/" as the platform separator the file is the root, a slash and the rewritten path. */
  lemma OutputPathWithSlash(root: string, rel: string)
    ensures OutputPath(root, rel, '/') == root + "/" + rel
  {
    var parts := Split(rel, "/");
    assert ([root] + parts)[1..] == parts;
    JoinSplit(rel, "/");
  }

  /** With "/" as the separator and a root without one, splitting the file gives back its segments. */
  lemma OutputPathSegments(root: string, rel: string)
    requires !Contains(root, "/")
    ensures Split(OutputPath(root, rel, '/'), "/") == Elements(root, rel)
  {
    var parts := Split(rel, "/");
    SplitPiecesLackSeparator(rel, "/");
    assert forall k :: 1 <= k < |parts| + 1 ==> Elements(root, rel)[k] == parts[k - 1];
    SplitJoin(Elements(root, rel), "/");
  }

  // ---------------------------------------------------------------- writing

  /** No two different needed assets of `keys` are written to the same file. */
  predicate TargetsDistinct(g: Generator, keys: set<string>, sep: char)
  {
    forall p, q :: p in keys && q in keys && g.Needed(p) && g.Needed(q) && g.Target(p, sep) == g.Target(q, sep) ==> p == q
  }

  /** The log holds one write per needed asset of the order: its file and its bytes. */
  lemma {:induction false} WritesMembers(g: Generator, order: seq<string>, assets: map<string, Bytes>,
                                         sep: char, w: Write)
    requires forall i :: 0 <= i < |order| ==> order[i] in assets
    ensures w in g.Writes(order, assets, sep) <==>
      exists i :: 0 <= i < |order| && g.Needed(order[i]) && w == (g.Target(order[i], sep), assets[order[i]])
    decreases |order|
  {
    if |order| > 0 {
      var n := |order| - 1;
      var pre := order[..n];
      assert forall i :: 0 <= i < n ==> pre[i] == order[i];
      WritesMembers(g, pre, assets, sep, w);
      assert g.Writes(order, assets, sep) == g.Writes(pre, assets, sep) +
        if g.Needed(order[n]) then [(g.Target(order[n], sep), assets[order[n]])] else [];
    }
  }

  /** When no two needed assets share a file, each needed asset's file holds that asset. */
  lemma WrittenTarget(g: Generator, files: map<string, Bytes>, order: seq<string>,
                      assets: map<string, Bytes>, sep: char, p: string)
    requires forall i :: 0 <= i < |order| ==> order[i] in assets
    requires TargetsDistinct(g, assets.Keys, sep)
    requires p in order && g.Needed(p)
    ensures var out := Apply(files, g.Writes(order, assets, sep));
      g.Target(p, sep) in out && out[g.Target(p, sep)] == assets[p]
  {
    var writes := g.Writes(order, assets, sep);
    var k := g.Target(p, sep);
    var ip :| 0 <= ip < |order| && order[ip] == p;
    WritesMembers(g, order, assets, sep, (k, assets[p]));
    var i :| 0 <= i < |writes| && writes[i] == (k, assets[p]);
    forall l | 0 <= l < |writes| && writes[l].0 == k
      ensures writes[l].1 == assets[p]
    {
      WritesMembers(g, order, assets, sep, writes[l]);
    }
    ApplyAgreeing(files, writes, k, assets[p]);
  }

  /** A file no needed asset is written to keeps its old content, or stays absent. */
  lemma WrittenUntouched(g: Generator, files: map<string, Bytes>, order: seq<string>,
                         assets: map<string, Bytes>, sep: char, k: string)
    requires forall i :: 0 <= i < |order| ==> order[i] in assets
    requires forall i :: 0 <= i < |order| && g.Needed(order[i]) ==> g.Target(order[i], sep) != k
    ensures var out := Apply(files, g.Writes(order, assets, sep));
      (k in out <==> k in files) && (k in files ==> out[k] == files[k])
  {
    var writes := g.Writes(order, assets, sep);
    forall l | 0 <= l < |writes|
      ensures writes[l].0 != k
    {
      WritesMembers(g, order, assets, sep, writes[l]);
    }
    ApplyUntouched(files, writes, k);
  }

  /** When no two needed assets share a file, the order of the writes does not matter. */
  lemma WrittenOrderIndependent(g: Generator, files: map<string, Bytes>, order1: seq<string>, order2: seq<string>,
                                assets: map<string, Bytes>, sep: char)
    requires forall i :: 0 <= i < |order1| ==> order1[i] in assets
    requires forall i :: 0 <= i < |order2| ==> order2[i] in assets
    requires forall p :: p in order1 <==> p in order2
    requires TargetsDistinct(g, assets.Keys, sep)
    ensures Apply(files, g.Writes(order1, assets, sep)) == Apply(files, g.Writes(order2, assets, sep))
  {
    var writes1, writes2 := g.Writes(order1, assets, sep), g.Writes(order2, assets, sep);
    forall w
      ensures w in writes1 <==> w in writes2
    {
      WritesMembers(g, order1, assets, sep, w);
      WritesMembers(g, order2, assets, sep, w);
      if i :| 0 <= i < |order1| && g.Needed(order1[i]) && w == (g.Target(order1[i], sep), assets[order1[i]]) {
        assert order1[i] in order2;
      }
      if i :| 0 <= i < |order2| && g.Needed(order2[i]) && w == (g.Target(order2[i], sep), assets[order2[i]]) {
        assert order2[i] in order1;
      }
    }
    forall i, j | 0 <= i < |writes1| && 0 <= j < |writes1| && writes1[i].0 == writes1[j].0
      ensures writes1[i].1 == writes1[j].1
    {
      WritesMembers(g, order1, assets, sep, writes1[i]);
      WritesMembers(g, order1, assets, sep, writes1[j]);
    }
    ApplyOrderIndependent(files, writes1, writes2);
  }

  /** The directory of every needed asset is created. */
  lemma {:induction false} DirCreatedFor(g: Generator, order: seq<string>, sep: char, i: nat)
    requires i < |order| && g.Needed(order[i])
    ensures g.TargetDir(order[i], sep) in g.DirsCreated(order, sep)
    decreases |order|
  {
    var n := |order| - 1;
    var pre := order[..n];
    var last := if g.Needed(order[n]) then {g.TargetDir(order[n], sep)} else {};
    assert g.DirsCreated(order, sep) == g.DirsCreated(pre, sep) + last;
    if i < n {
      assert pre[i] == order[i];
      DirCreatedFor(g, pre, sep, i);
    }
  }

  /** Every directory created is the directory of some needed asset. */
  lemma {:induction false} DirCreatedFrom(g: Generator, order: seq<string>, sep: char, d: string)
    returns (i: nat)
    requires d in g.DirsCreated(order, sep)
    ensures i < |order| && g.Needed(order[i]) && g.TargetDir(order[i], sep) == d
    decreases |order|
  {
    var n := |order| - 1;
    var pre := order[..n];
    if d in g.DirsCreated(pre, sep) {
      i := DirCreatedFrom(g, pre, sep, d);
      assert pre[i] == order[i];
    } else {
      i := n;
    }
  }

  /** A directory is created iff some needed asset lives in it. */
  lemma DirsCreatedMembers(g: Generator, order: seq<string>, sep: char, d: string)
    ensures d in g.DirsCreated(order, sep) <==>
      exists i :: 0 <= i < |order| && g.Needed(order[i]) && g.TargetDir(order[i], sep) == d
  {
    if d in g.DirsCreated(order, sep) {
      var i := DirCreatedFrom(g, order, sep, d);
    }
    if i :| 0 <= i < |order| && g.Needed(order[i]) && g.TargetDir(order[i], sep) == d {
      DirCreatedFor(g, order, sep, i);
    }
  }

  /**
   * What generate leaves behind when no two templates and no two images share
   * a file: every needed image byte for byte, and every needed text template
   * that no image overwrites with its placeholders replaced.
   */
  lemma GeneratedContents(g: Generator, files: map<string, Bytes>, sources: map<string, string>,
                          images: map<string, Bytes>, sourceOrder: seq<string>, imageOrder: seq<string>, sep: char)
    requires Enumerates(sourceOrder, sources.Keys) && Enumerates(imageOrder, images.Keys)
    requires TargetsDistinct(g, sources.Keys, sep) && TargetsDistinct(g, images.Keys, sep)
    ensures var out := Apply(files, g.Writes(sourceOrder, g.TextAssets(sources), sep) + g.Writes(imageOrder, images, sep));
      && (forall p :: p in images && g.Needed(p) ==>
            g.Target(p, sep) in out && out[g.Target(p, sep)] == images[p])
      && (forall p ::
            (p in sources && g.Needed(p) &&
             forall q :: q in images && g.Needed(q) ==> g.Target(q, sep) != g.Target(p, sep))
            ==> g.Target(p, sep) in out && out[g.Target(p, sep)] == g.Substituted(sources[p]))
  {
    var text := g.TextAssets(sources);
    var textWrites, imageWrites := g.Writes(sourceOrder, text, sep), g.Writes(imageOrder, images, sep);
    var mid := Apply(files, textWrites);
    var out := Apply(mid, imageWrites);
    ApplyConcat(files, textWrites, imageWrites);
    forall p | p in images && g.Needed(p)
      ensures g.Target(p, sep) in out && out[g.Target(p, sep)] == images[p]
    {
      WrittenTarget(g, mid, imageOrder, images, sep, p);
    }
    forall p | p in sources && g.Needed(p) &&
        (forall q :: q in images && g.Needed(q) ==> g.Target(q, sep) != g.Target(p, sep))
      ensures g.Target(p, sep) in out && out[g.Target(p, sep)] == g.Substituted(sources[p])
    {
      assert text.Keys == sources.Keys;
      WrittenTarget(g, files, sourceOrder, text, sep, p);
      WrittenUntouched(g, mid, imageOrder, images, sep, g.Target(p, sep));
    }
  }
}
