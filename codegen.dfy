/**
 * The code generator: which template files belong to a project for a given
 * technology stack, where each of them is written, and with what content.
 */
module Codegen {
  import opened GoStrings
  import opened Files

  /** The token in text templates that is replaced by the project name. */
  const Placeholder := "project-name"

  /** The technologies that tie a template path to one variant of the project. */
  const Techs: seq<string> := ["angular", "react", "vue", "mongo", "mysql", "postgres"]

  /** Whether some tag of `tags`, followed by a dot, begins `path`: the loop of needed. */
  function PrefixedByAny(path: string, tags: seq<string>): bool
    decreases |tags|
  {
    if |tags| == 0 then false
    else StartsWith(path, tags[0] + ".") || PrefixedByAny(path, tags[1..])
  }

  lemma {:induction false} PrefixedByAnyMeans(path: string, tags: seq<string>)
    ensures PrefixedByAny(path, tags) <==> exists i :: 0 <= i < |tags| && StartsWith(path, tags[i] + ".")
    decreases |tags|
  {
    if |tags| > 0 {
      PrefixedByAnyMeans(path, tags[1..]);
      assert forall i :: 1 <= i < |tags| ==> tags[1..][i - 1] == tags[i];
    }
  }

  /** Whether the path belongs to one of the six recognised technologies. */
  function HasTechPrefix(path: string): bool
  {
    PrefixedByAny(path, Techs)
  }

  lemma HasTechPrefixMeans(path: string)
    ensures HasTechPrefix(path) <==>
      || StartsWith(path, "angular.") || StartsWith(path, "react.")
      || StartsWith(path, "vue.") || StartsWith(path, "mongo.")
      || StartsWith(path, "mysql.") || StartsWith(path, "postgres.")
  {
    PrefixedByAnyMeans(path, Techs);
    assert Techs[0] + "." == "angular." && Techs[1] + "." == "react." && Techs[2] + "." == "vue.";
    assert Techs[3] + "." == "mongo." && Techs[4] + "." == "mysql." && Techs[5] + "." == "postgres.";
  }

  /**
   * Deletes, for each tag in turn, the first occurrence of the tag followed by
   * a dot, wherever it stands in the path.
   */
  function Rewrite(path: string, tags: seq<string>): (r: string)
    ensures |r| <= |path|
    decreases |tags|
  {
    if |tags| == 0 then path
    else Rewrite(ReplaceFirst(path, tags[0] + ".", ""), tags[1..])
  }

  /** The project root followed by the slash-separated segments of a relative path. */
  function Elements(root: string, rel: string): (e: seq<string>)
    ensures |e| >= 2 && e[0] == root
  {
    [root] + Split(rel, "/")
  }

  /** The file a relative template path is written to. */
  function OutputPath(root: string, rel: string, sep: char): string
  {
    Join(Elements(root, rel), [sep])
  }

  /** The directory created for that file. */
  function OutputDir(root: string, rel: string, sep: char): string
  {
    var e := Elements(root, rel);
    Join(e[..|e| - 1], [sep])
  }

  /** The root of the generated tree: nested under "generated/" in docker mode. */
  function DestinationRoot(projectName: string, dockerEnv: string): (root: string)
    ensures root == "generated/" + projectName <==> dockerEnv == "true"
    ensures dockerEnv != "true" ==> root == projectName
  {
    if dockerEnv == "true" then "generated/" + projectName else projectName
  }

  /** `order` lists every key of `keys` exactly once: how Go ranges over a map. */
  predicate Enumerates(order: seq<string>, keys: set<string>)
  {
    && (forall i :: 0 <= i < |order| ==> order[i] in keys)
    && (forall p :: p in keys ==> p in order)
    && (forall i, j :: 0 <= i < j < |order| ==> order[i] != order[j])
  }

  datatype Generator = Generator(projectName: string, techStack: seq<string>)
  {
    /** Whether a template path belongs to the project. */
    function Needed(path: string): bool
    {
      !HasTechPrefix(path) || PrefixedByAny(path, techStack)
    }

    /**
     * A path without a technology prefix is always needed; one with such a
     * prefix only when a tag of the stack, followed by a dot, begins it.
     */
    lemma NeededMeans(path: string)
      ensures !HasTechPrefix(path) ==> Needed(path)
      ensures HasTechPrefix(path) ==>
        (Needed(path) <==> exists i :: 0 <= i < |techStack| && StartsWith(path, techStack[i] + "."))
    {
      PrefixedByAnyMeans(path, techStack);
    }

    /** The file a needed template path is written to. */
    function Target(path: string, sep: char): string
    {
      OutputPath(projectName, Rewrite(path, techStack), sep)
    }

    /** The directory created for a needed template path. */
    function TargetDir(path: string, sep: char): string
    {
      OutputDir(projectName, Rewrite(path, techStack), sep)
    }

    /** A text template with every placeholder replaced by the project name. */
    function Substituted(text: string): string
    {
      ReplaceAll(text, Placeholder, projectName)
    }

    /** The bytes written for each text template. */
    function TextAssets(sources: map<string, string>): (m: map<string, Bytes>)
      ensures m.Keys == sources.Keys
    {
      map p | p in sources :: Substituted(sources[p])
    }

    /** The file writes made when the assets are processed in the given order. */
    function Writes(order: seq<string>, assets: map<string, Bytes>, sep: char): seq<Write>
      requires forall i :: 0 <= i < |order| ==> order[i] in assets
      decreases |order|
    {
      if |order| == 0 then []
      else
        var path := order[|order| - 1];
        Writes(order[..|order| - 1], assets, sep) + if Needed(path) then [(Target(path, sep), assets[path])] else []
    }

    /** The directories created while the paths are processed in the given order. */
    function DirsCreated(order: seq<string>, sep: char): set<string>
      decreases |order|
    {
      if |order| == 0 then {}
      else
        var path := order[|order| - 1];
        DirsCreated(order[..|order| - 1], sep) + if Needed(path) then {TargetDir(path, sep)} else {}
    }

    /** The tag-deleting loop of processFile. */
    method RewritePath(path: string) returns (p: string)
      ensures p == Rewrite(path, techStack)
    {
      p := path;
      for i := 0 to |techStack|
        invariant Rewrite(p, techStack[i..]) == Rewrite(path, techStack)
      {
        assert techStack[i..][1..] == techStack[i + 1..];
        p := ReplaceFirst(p, techStack[i] + ".", "");
      }
    }

    /**
     * processFile: a path that is not needed leaves the file system alone;
     * a needed one gets its directory and its file.
     */
    method ProcessFile(fs: FileSystem, path: string, content: Bytes, sep: char)
      modifies fs
      ensures !Needed(path) ==> fs.files == old(fs.files) && fs.dirs == old(fs.dirs)
      ensures Needed(path) ==> fs.files == old(fs.files)[Target(path, sep) := content]
      ensures Needed(path) ==> fs.dirs == old(fs.dirs) + {TargetDir(path, sep)}
    {
      if !Needed(path) {
        return;
      }
      var rel := RewritePath(path);
      var pathElements := [projectName] + Split(rel, "/");
      var pathFile := Join(pathElements, [sep]);
      fs.MkdirAll(Join(pathElements[..|pathElements| - 1], [sep]));
      fs.WriteFile(pathFile, content);
    }

    /** The first loop of generate: every text template, placeholder replaced, in the given order. */
    method ProcessSources(fs: FileSystem, sources: map<string, string>, order: seq<string>, sep: char)
      requires forall i :: 0 <= i < |order| ==> order[i] in sources
      modifies fs
      ensures fs.files == Apply(old(fs.files), Writes(order, TextAssets(sources), sep))
      ensures fs.dirs == old(fs.dirs) + DirsCreated(order, sep)
    {
      ghost var text := TextAssets(sources);
      ghost var files0, dirs0 := fs.files, fs.dirs;
      for i := 0 to |order|
        invariant fs.files == Apply(files0, Writes(order[..i], text, sep))
        invariant fs.dirs == dirs0 + DirsCreated(order[..i], sep)
      {
        var path := order[i];
        var content := ReplaceAll(sources[path], Placeholder, projectName);
        ghost var before := Writes(order[..i], text, sep);
        assert content == text[path];
        ProcessFile(fs, path, content, sep);
        assert Writes(order[..i + 1], text, sep) ==
          before + if Needed(path) then [(Target(path, sep), text[path])] else [] by {
          assert order[..i + 1][..i] == order[..i];
        }
        if Needed(path) {
          ApplySnoc(files0, before, (Target(path, sep), content));
        } else {
          assert before + [] == before;
        }
        assert order[..i + 1][..i] == order[..i];
      }
      assert order[..|order|] == order;
    }

    /** The second loop of generate: every image, unchanged, in the given order. */
    method ProcessImages(fs: FileSystem, images: map<string, Bytes>, order: seq<string>, sep: char)
      requires forall i :: 0 <= i < |order| ==> order[i] in images
      modifies fs
      ensures fs.files == Apply(old(fs.files), Writes(order, images, sep))
      ensures fs.dirs == old(fs.dirs) + DirsCreated(order, sep)
    {
      ghost var files0, dirs0 := fs.files, fs.dirs;
      for i := 0 to |order|
        invariant fs.files == Apply(files0, Writes(order[..i], images, sep))
        invariant fs.dirs == dirs0 + DirsCreated(order[..i], sep)
      {
        var path := order[i];
        ghost var before := Writes(order[..i], images, sep);
        ProcessFile(fs, path, images[path], sep);
        assert Writes(order[..i + 1], images, sep) ==
          before + if Needed(path) then [(Target(path, sep), images[path])] else [] by {
          assert order[..i + 1][..i] == order[..i];
        }
        if Needed(path) {
          ApplySnoc(files0, before, (Target(path, sep), images[path]));
        } else {
          assert before + [] == before;
        }
        assert order[..i + 1][..i] == order[..i];
      }
      assert order[..|order|] == order;
    }

    /**
     * generate: the text templates, then the images, each in the order its
     * map is ranged over.
     */
    method GenerateFiles(fs: FileSystem, sources: map<string, string>, images: map<string, Bytes>,
                         sourceOrder: seq<string>, imageOrder: seq<string>, sep: char)
      requires Enumerates(sourceOrder, sources.Keys) && Enumerates(imageOrder, images.Keys)
      modifies fs
      ensures fs.files ==
        Apply(old(fs.files), Writes(sourceOrder, TextAssets(sources), sep) + Writes(imageOrder, images, sep))
      ensures fs.dirs == old(fs.dirs) + DirsCreated(sourceOrder, sep) + DirsCreated(imageOrder, sep)
    {
      ghost var files0 := fs.files;
      ProcessSources(fs, sources, sourceOrder, sep);
      ProcessImages(fs, images, imageOrder, sep);
      ApplyConcat(files0, Writes(sourceOrder, TextAssets(sources), sep), Writes(imageOrder, images, sep));
    }
  }

  /** Generate: the docker flag moves the root under "generated/", then every needed file is written. */
  method Generate(fs: FileSystem, projectName: string, techStack: seq<string>, dockerEnv: string,
                  sources: map<string, string>, images: map<string, Bytes>,
                  sourceOrder: seq<string>, imageOrder: seq<string>, sep: char)
    requires Enumerates(sourceOrder, sources.Keys) && Enumerates(imageOrder, images.Keys)
    modifies fs
    ensures var g := Generator(DestinationRoot(projectName, dockerEnv), techStack);
      && fs.files == Apply(old(fs.files), g.Writes(sourceOrder, g.TextAssets(sources), sep) + g.Writes(imageOrder, images, sep))
      && fs.dirs == old(fs.dirs) + g.DirsCreated(sourceOrder, sep) + g.DirsCreated(imageOrder, sep)
  {
    var g := Generator(projectName, techStack);
    if dockerEnv == "true" {
      g := g.(projectName := "generated/" + g.projectName);
    }
    g.GenerateFiles(fs, sources, images, sourceOrder, imageOrder, sep);
  }
}
