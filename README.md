# goxygen code generator: file selection, path rewriting and materialisation

This project models the core of goxygen's `codegen` package in Dafny and
proves properties of the model. goxygen scaffolds a new web project from a
bundled set of templates. The core covered here decides:

- which template files belong to the project for a given technology stack
  (`hasTechPrefix`, `needed`);
- where each selected file is written (`processFile`: the tag-deleting
  rewrite, the split on `/` and the join under the project root with the
  platform separator);
- what each file contains (`generate`: the `project-name` placeholder
  replaced in text templates, images copied unchanged);
- where the project root lies (`Generate`: the docker-mode rule).

Modules:

- `GoStrings` (`go_strings.dfy`): the functions of Go's `strings` package
  that the generator calls (`HasPrefix`, `Replace` with a count of 1 and of
  -1, `Split`, `Join`), with Go's semantics. `Index`, `Contains` and
  `Count` are not called by the generator; they are helpers that define the
  others. A Go string and a Go `[]byte` are both byte sequences. Both are
  modelled as a Dafny `string` in which one character stands for one byte,
  so the conversion `[]byte(srcText)` is the identity.
- `Files` (`files.dfy`): the file system as a class with a map from path
  to content and a set of created directories. `MkdirAll` and `WriteFile`
  update it in place. A write log (`seq<Write>`) and its fold `Apply`
  describe the files left by a sequence of writes.
- `Codegen` (`codegen.dfy`): the selection predicates, the rewrite, the
  output path, the `Generator` value (Go's `generator` struct, whose methods
  have value receivers), the methods that mirror `processFile`, the two
  loops of `generate`, and `Generate`.
- `CodegenProperties` (`codegen_properties.dfy`): lemmas about selection,
  rewriting, output paths and the final file contents.

Go ranges over a map in an unspecified order. Each loop therefore takes the
order as a parameter: a sequence that lists every key exactly once
(`Enumerates`). The methods are proved against the write log that this
order produces. `os.Getenv("GOXYGEN_DOCKER")` and `os.PathSeparator` are
parameters too (`dockerEnv`, `sep`).

### Where the code differs from a first reading

- The rewrite is not a prefix strip. For every tag of the stack, in order,
  the code deletes the first occurrence of `tag + "."` wherever it stands
  (`RewriteTagInsidePath`). A path without a technology prefix can therefore
  still be rewritten. A tagged path can lose more than one segment, one per
  matching tag.
- Images pass through the same filter as text templates. An image under a
  technology prefix that the stack does not select is not written
  (`WritesMembers`).
- A stack of unrecognised tags selects like the empty stack when the tags
  contain no dot (`UnrecognisedTagsSelectNothing`); a dotted tag such as
  `react.native` can select a tagged path (`DottedTagSelects`).
- In docker mode the project name itself becomes `generated/<name>`. The
  placeholder in text templates is therefore replaced by `generated/<name>`
  too (`Generate`).
- The code does not check that needed files have distinct targets: when two
  share one, the last written wins (`Files.ApplyLastWrite`); the outcome is
  proved independent of the order only when targets are distinct
  (`WrittenOrderIndependent`).

## Model

| member | source | states |
|---|---|---|
| GoStrings.StartsWith | codegen/codegen.go:105 | strings.HasPrefix: the prefix is no longer than the string and equals its first bytes; used by PrefixedByAnyMeans and HasTechPrefixMeans |
| GoStrings.IndexFrom | codegen/codegen.go:54 | the result is -1 or an occurrence of the pattern at or after the start position |
| GoStrings.IndexFromFirst | codegen/codegen.go:54 | no occurrence lies between the start position and the returned position; -1 means none at all |
| GoStrings.Index | codegen/codegen.go:54 | strings.Index returns -1 or a position where the pattern occurs |
| GoStrings.IndexFirst | codegen/codegen.go:54 | strings.Index returns the first occurrence, and -1 only when the pattern does not occur |
| GoStrings.IndexIsFirst | codegen/codegen.go:54 | an occurrence with none before it is the one Index returns |
| GoStrings.BeforeFirstHasNone | codegen/codegen.go:56 | the text before the first separator does not contain the separator |
| GoStrings.ReplaceFirst | codegen/codegen.go:54 | Replace with count 1 leaves a string without the pattern unchanged, and otherwise changes its length by the length difference |
| GoStrings.ReplaceFirstAt | codegen/codegen.go:54 | Replace with count 1 replaces exactly the first occurrence |
| GoStrings.ReplaceFirstPrefix | codegen/codegen.go:54 | a string beginning with the pattern has that prefix replaced |
| GoStrings.SplitPiecesLackSeparator | codegen/codegen.go:56 | no piece of strings.Split contains the separator |
| GoStrings.Split | codegen/codegen.go:56 | strings.Split with a non-empty separator yields at least one piece |
| GoStrings.ReplaceAll | codegen/codegen.go:33 | Replace with count -1 leaves a text without the placeholder unchanged |
| GoStrings.ReplaceAllLength | codegen/codegen.go:33 | each replaced placeholder changes the length by the difference between replacement and placeholder |
| GoStrings.ReplaceAllIsJoinOfSplit | codegen/codegen.go:33 | replacing every occurrence equals splitting at the pattern and joining with the replacement |
| GoStrings.ReplaceAllWithItself | codegen/codegen.go:33 | replacing the placeholder by itself changes nothing |
| GoStrings.JoinSplit | codegen/codegen.go:56-59 | strings.Join undoes strings.Split |
| GoStrings.SplitJoin | codegen/codegen.go:56-59 | strings.Split at a one-byte separator undoes strings.Join of pieces without it |
| GoStrings.Join | codegen/codegen.go:59-62 | strings.Join; meaning stated by JoinSplit, SplitJoin and JoinSnoc |
| GoStrings.JoinSnoc | codegen/codegen.go:59-62 | joining one more piece appends the separator and the piece |
| Files.FileSystem.MkdirAll | codegen/codegen.go:61-64 | the directory is recorded as created and no file changes |
| Files.FileSystem.WriteFile | codegen/codegen.go:67-71 | the path now holds the content, whatever it held before, and the directories are unchanged |
| Files.Apply | codegen/codegen.go:67-71 | the files after a log of writes, each replacing its path; meaning stated by ApplySnoc, ApplyConcat, ApplyDomain, ApplyUntouched, ApplyLastWrite and ApplyAgreeing |
| Files.ApplySnoc | codegen/codegen.go:67-71 | one more write replaces what its path held |
| Files.ApplyConcat | codegen/codegen.go:32-39 | two batches of writes performed in turn equal their concatenation |
| Files.ApplyDomain | codegen/codegen.go:67-71 | a path exists afterwards iff it existed before or some write went to it |
| Files.ApplyUntouched | codegen/codegen.go:67-71 | a path no write goes to keeps its content or stays absent |
| Files.ApplyLastWrite | codegen/codegen.go:67-71 | the last write to a path decides its content |
| Files.ApplyAgreeing | codegen/codegen.go:67-71 | when every write to a path carries the same content, the path holds it |
| Files.ApplyOrderIndependent | codegen/codegen.go:32-39 | two logs with the same writes and no conflicting contents per path leave the same files |
| Codegen.PrefixedByAny | codegen/codegen.go:104-108 | the early-return tag loop of needed and of hasTechPrefix (113-119); meaning stated by PrefixedByAnyMeans |
| Codegen.PrefixedByAnyMeans | codegen/codegen.go:104-108 | the tag loop returns true iff some tag followed by a dot begins the path |
| Codegen.HasTechPrefix | codegen/codegen.go:112-121 | hasTechPrefix; meaning stated by HasTechPrefixMeans and TechOf |
| Codegen.HasTechPrefixMeans | codegen/codegen.go:112-121 | hasTechPrefix is true iff the path begins with one of the six technologies followed by a dot |
| Codegen.Generator.Needed | codegen/codegen.go:100-110 | needed; meaning stated by NeededMeans, NeededIffTagInStack and NeededWithEmptyStack |
| Codegen.Generator.NeededMeans | codegen/codegen.go:100-110 | an untagged path is always needed; a tagged one iff some stack tag followed by a dot begins it |
| Codegen.Rewrite | codegen/codegen.go:53-55 | the rewritten path is never longer than the original |
| Codegen.Generator.RewritePath | codegen/codegen.go:53-55 | the loop deletes, for each stack tag in order, the first occurrence of the tag and a dot |
| Codegen.Elements | codegen/codegen.go:56-58 | the path elements are the project name followed by at least one segment |
| Codegen.OutputPath | codegen/codegen.go:56-59 | the file written for a rewritten path; meaning stated by OutputPathShape, OutputPathWithSlash and OutputPathSegments |
| Codegen.OutputDir | codegen/codegen.go:61-64 | the directory created for a rewritten path; meaning stated by OutputPathShape |
| Codegen.Generator.Target | codegen/codegen.go:53-59 | the output path of a template after the rewrite; used by WritesMembers and WrittenTarget |
| Codegen.Generator.TargetDir | codegen/codegen.go:53-64 | the directory created for a template after the rewrite; used by DirsCreatedMembers |
| Codegen.Generator.Substituted | codegen/codegen.go:33 | the text with every placeholder replaced by the project name; meaning stated by ReplaceAll, ReplaceAllLength and ReplaceAllIsJoinOfSplit |
| Codegen.DestinationRoot | codegen/codegen.go:23-25 | the root is "generated/" plus the name iff the docker variable is exactly "true", and the name otherwise |
| Codegen.Generator.TextAssets | codegen/codegen.go:32-34 | every text template gets substituted content, and no other path does |
| Codegen.Generator.Writes | codegen/codegen.go:32-39 | the log of writes one range loop makes; meaning stated by WritesMembers and by ProcessSources and ProcessImages |
| Codegen.Generator.DirsCreated | codegen/codegen.go:32-39 | the directories one range loop creates; meaning stated by DirCreatedFor, DirCreatedFrom and DirsCreatedMembers |
| Codegen.Generator.ProcessFile | codegen/codegen.go:49-75 | an unneeded path changes nothing; a needed one creates its directory and writes its target |
| Codegen.Generator.ProcessSources | codegen/codegen.go:32-36 | the text loop leaves the files given by the log of substituted needed templates, and creates their directories |
| Codegen.Generator.ProcessImages | codegen/codegen.go:37-39 | the image loop leaves the files given by the log of needed images, and creates their directories |
| Codegen.Generator.GenerateFiles | codegen/codegen.go:30-39 | generate performs the text log, then the image log |
| Codegen.Generate | codegen/codegen.go:19-28 | Generate behaves as generate on a generator rooted at the destination root |
| CodegenProperties.DotAfterTag | codegen/codegen.go:116 | a tag and dot beginning a path put the tag first and a dot right after it |
| CodegenProperties.TagPrefixUnique | codegen/codegen.go:105 | two dot-free tags that both begin a path with a dot are equal |
| CodegenProperties.TechOf | codegen/codegen.go:112-121 | a tagged path begins with a dot-free recognised technology and a dot |
| CodegenProperties.NeededWithEmptyStack | codegen/codegen.go:100-110 | with an empty stack exactly the untagged paths are needed |
| CodegenProperties.NeededIffTagInStack | codegen/codegen.go:100-110 | a path tagged with a recognised technology is needed iff that technology is in a stack of dot-free tags |
| CodegenProperties.UnrecognisedTagsSelectNothing | codegen/codegen.go:100-121 | dot-free unrecognised tags select exactly the untagged paths |
| CodegenProperties.DottedTagSelects | codegen/codegen.go:104-108 | a dotted tag can select a tagged path |
| CodegenProperties.RewriteWithoutPattern | codegen/codegen.go:53-55 | tags whose pattern does not occur leave the path unchanged |
| CodegenProperties.RewriteLeadingTag | codegen/codegen.go:53-55 | a path beginning with the first tag and a dot loses that prefix before the other tags apply |
| CodegenProperties.NoEarlierTag | codegen/codegen.go:54 | a dot-free tag and dot placed after text without that pattern have no earlier occurrence |
| CodegenProperties.RewriteTagInsidePath | codegen/codegen.go:53-55 | a tag and dot in the middle of a path are deleted |
| CodegenProperties.OutputPathShape | codegen/codegen.go:56-64 | the file is the created directory, the separator and a last segment without a slash |
| CodegenProperties.OutputPathWithSlash | codegen/codegen.go:56-59 | with "/" as separator the file is the root, a slash and the rewritten path |
| CodegenProperties.OutputPathSegments | codegen/codegen.go:56-59 | with "/" as separator and a slash-free root, splitting the file gives back its elements |
| CodegenProperties.WritesMembers | codegen/codegen.go:49-52 | the log holds exactly one write per needed asset, to its target, with its content |
| CodegenProperties.WrittenTarget | codegen/codegen.go:67-71 | with distinct targets, each needed asset's target holds that asset |
| CodegenProperties.WrittenUntouched | codegen/codegen.go:49-52 | a file no needed asset targets keeps its content or stays absent |
| CodegenProperties.WrittenOrderIndependent | codegen/codegen.go:32-39 | with distinct targets, the order in which the map is ranged over does not change the files |
| CodegenProperties.DirCreatedFor | codegen/codegen.go:61-64 | the directory of every needed asset is created |
| CodegenProperties.DirCreatedFrom | codegen/codegen.go:61-64 | every created directory belongs to some needed asset |
| CodegenProperties.DirsCreatedMembers | codegen/codegen.go:61-64 | a directory is created iff some needed asset lives in it |
| CodegenProperties.GeneratedContents | codegen/codegen.go:30-39 | needed images are written byte for byte, and needed templates no image overwrites hold their substituted text |

## Left out

- `initGitRepo` (three `git` process invocations) and the message printed when it fails are not modelled: they are calls into external programs with no logic beyond an early return on error.
- The console output of `fmt.Println` is not modelled: it is progress text only.
- `log.Fatal` on a failed write is not modelled: `Files.FileSystem.WriteFile` always succeeds, and process termination is outside the model.
- `os.Getenv("GOXYGEN_DOCKER")` and `os.PathSeparator` are parameters (`dockerEnv`, `sep`).
- The contents of `static.Sources()` and `static.Images()` are abstract input maps; the `static` package is not part of this model.
- Go's map iteration order is a parameter (`sourceOrder`, `imageOrder`) that lists every key once.
- File permissions (`os.ModePerm`, `0644`) are not modelled.
- Files.FileSystem.MkdirAll: records only the directory passed to it, not its ancestors, and never fails, because the code discards its error.
- GoStrings.Split: requires a non-empty separator; Go's empty-separator behaviour (one piece per UTF-8 sequence) is unused, because the code always splits at "/".
- GoStrings.ReplaceAll: requires a non-empty pattern; Go's empty-pattern behaviour is unused, because the code always replaces "project-name".
- GoStrings.Split: the contract states only that there is at least one piece; what the pieces are is stated by `SplitPiecesLackSeparator`, `JoinSplit` and `SplitJoin`.
- Strings are byte sequences; UTF-8 decoding plays no part in any of the operations used.
