# deptree2html in Dafny

A verified model of the two scripts of deptree2html. Both read the text
output of Maven's `dependency:tree` goal one line at a time.

- `depstree2html.js` turns the report into an HTML page. Each module gets a
  heading and a nested `<ul>`/`<li>` list of its dependency tree.
- `depstree-latest-version-checker.js` collects the distinct
  `group:artifact:version` coordinates of the report, minus those the
  `--ignore-packages` argument names, and sorts them for a latest-version
  lookup. Only this collecting half is modelled.

Both scripts classify lines with the same regular expression:

```
INFO]([\s\\+\\\-|]*)([\w.-]+):([\w.-]+):([\w.-]+):([\w.-]+):?(\w+)?$
```

## Files

| file | module | what it models |
|---|---|---|
| `wrappers.dfy` | `Wrappers` | `Option`, with `:-` support |
| `strings.dfy` | `Strings` | `startsWith`, and `split`/`join` on one character |
| `matcher.dfy` | `Matcher` | the line pattern, with the backtracking of a JavaScript regex engine |
| `tree.dfy` | `DepsTree` | the forest of `{coordinate, children}` nodes and the frame levels of the stack |
| `render.dfy` | `Renderer` | `generateHTML`, and a decoder that reads its `<li>` lines back |
| `depstree2html.dfy` | `DepsTree2Html` | the `line` and `close` handlers of the HTML generator, as the class `Report` |
| `checker.dfy` | `LatestVersionChecker` | the argument parsing, ignore filter, `deps` collector and sort of the checker, as the class `Collector` |

## How the model reads the code

- **Matcher.** `Match` follows the engine's search exactly:
  - it tries each `INFO]` from the left (`Leftmost` over the start
    positions, `MatchAt` at each);
  - it takes the longest run of prefix characters first, then gives it back
    one character at a time until the rest of the line parses;
  - the four fields are greedy runs of `[\w.-]`, each followed by `:`;
  - after the last field only `""`, `":"` or `":"` followed by `\w+` may
    remain.

  The level is the length of group 1. The third field is the packaging and
  the fourth the version, as `depstree2html.js:59-60` name them. A group
  whose first character is `-` can be read with that `-` in the prefix, since
  the prefix class contains `-` and is greedy. `MatchWellFormedLine`
  therefore requires that the group does not start with `-`.
- **Tree.** The stack frames hold a node and a level. A frame's node is
  always the newest child of the frame below it, so the frames are the nodes
  on the right-most path of the forest. The model stores the forest as a
  value (`seq<Node>`) and the frames as their levels (`levels`, sentinel
  first). `AppendAt(root, d, n)` is `stack[d].node.children.push(n)`.
  `Parents` lists each node's parent by pre-order index. `Report` also
  records, as ghost state, the level of each node of the module
  (`matchedLevels`) and every line read (`lines`). The invariant `Nested`
  ties the frames to those levels, and through it every node's parent is
  its nearest earlier node with a smaller level (`ParentsNearest`).
- **Output.** `console.log` becomes an append to `out`. The renderer
  inserts the text verbatim: there is no HTML escaping.
- **Object key order.** The checker's `deps` object keeps its keys in
  insertion order, and `Object.values` follows that order. `Collector.order`
  records it. The sorted result does not depend on it (`SortedUnique`).
- **Ignore filter.** The program skips a line when `find` returns a truthy
  entry, and the empty entry that a stray comma leaves is falsy. The model
  has both this filter as written (`IgnoredAsWritten`) and the intended
  filter, where a name is skipped when some non-empty entry is a prefix of
  it (`Ignored`). The collector uses the intended one; "## Findings" shows
  where the two differ.
- **Sort order.** `localeCompare` is replaced by plain lexicographic order
  on characters (`Before`).

## Model

| member | source | states |
|---|---|---|
| Strings.Split | depstree2html.js:49 | `split(' ')` yields at least one piece, and no piece contains the separator |
| Strings.JoinSplit | depstree-latest-version-checker.js:10 | joining the pieces of a split with the separator restores the string |
| Strings.SplitJoin | depstree-latest-version-checker.js:10 | separator-free pieces come back unchanged from splitting their join |
| Matcher.FieldRun | depstree2html.js:45 | the run of `[\w.-]` characters at the start of a string is no longer than the string |
| Matcher.FieldRunMaximal | depstree2html.js:45 | that run is maximal: all its characters are field characters and the next one is not |
| Matcher.PrefixRunMaximal | depstree2html.js:45 | the greedy prefix run of group 1 is all white space or glyphs, and the character after it is neither |
| Matcher.ParseFieldSound | depstree2html.js:45 | a parsed field is a non-empty `[\w.-]` run, and the input is that field, `:`, and the rest |
| Matcher.ParseLastSound | depstree2html.js:45 | the last field is a `[\w.-]` run, followed by nothing, by `:` alone (no scope), or by `:` and a `\w+` scope |
| Matcher.ParseCoordSound | depstree2html.js:45 | what the field parser accepts is well formed and spells the coordinate, with at most a bare trailing colon |
| Matcher.Match | depstree2html.js:45 | the model of `line.match`; its contract is `MatchSound` and `MatchWellFormedLine` |
| Matcher.ParseCoord | depstree2html.js:45 | the four fields and the scope of the pattern; its contract is `ParseCoordSound` and `ParseCoordText` |
| Matcher.TryPrefixes | depstree2html.js:45 | the backtracking over group 1; its contract is `TryPrefixesSound` and `TryPrefixesLongest` |
| Matcher.DownwardSpec | depstree2html.js:45 | a search that gives a greedy run back one position at a time stops at the largest position with a result, and fails only when no position has one |
| Matcher.TryPrefixesLongest | depstree2html.js:45 | the prefix the match uses is the longest one, up to the greedy run, after which the fields parse; with no match the fields parse after no such prefix |
| Matcher.TryPrefixesSound | depstree2html.js:45 | backtracking over shorter prefixes returns a level no longer than the run, made of prefix characters, and a coordinate the rest of the line spells |
| Matcher.AfterMarkerSound | depstree2html.js:45 | a match after an `INFO]` has a prefix of white space and glyphs and a well-formed coordinate spelling the rest of the line |
| Matcher.LeftmostIndex | depstree2html.js:45 | the leftmost search stops at a position where the attempt succeeds, and every attempt before it fails |
| Matcher.MatchIndex | depstree2html.js:45 | a successful search ends at an `INFO]` whose attempt gives the result |
| Matcher.MatchSound | depstree2html.js:45-61 | a matched line is some text, `INFO]`, a prefix of exactly `level` white space or glyphs, then `g:a:p:v[:s]` of a well-formed coordinate, up to the end of the line |
| Matcher.ParseCoordText | depstree2html.js:56-61 | every text that spells a well-formed coordinate parses back to it: `g:a:p:v`, `g:a:p:v:` with a bare trailing colon, or `g:a:p:v:s`. Fields 1-4 are group, artifact, packaging and version, and the scope is present iff there is a `:\w+` suffix |
| Matcher.SpellsCoordChars | depstree2html.js:45 | the text of a well-formed coordinate holds only field characters and colons |
| Matcher.NoMatchBefore | depstree2html.js:45 | no match starts before an `INFO]`: it would have to run through that `]` to the end of the line |
| Matcher.MatchFromSkips | depstree2html.js:45 | the leftmost search passes over everything before the last `INFO]` of a line |
| Matcher.MatchWellFormedLine | depstree2html.js:45-61 | the line `pre + "INFO]" + prefix + t` matches with the prefix length as level and exactly the coordinate, for any `pre` (it may hold other `INFO]`s) and any text `t` that spells the coordinate |
| Matcher.MatchBareColon | depstree2html.js:45-61 | a line ending in `g:a:p:v:`, a bare trailing colon, matches as that coordinate without a scope |
| DepsTree.AppendAt | depstree2html.js:69 | `children.push` on the node of a frame; its contract is `AppendAtShape` and `PreorderAppendAt` |
| DepsTree.PreorderAppendAt | depstree2html.js:69 | appending a new node at any depth of the right-most path lists it last in pre-order |
| DepsTree.AppendAtShape | depstree2html.js:69-70 | after the append the right-most path ends in the new node at depth `d + 1`. The target node gains exactly that child. Every node above it keeps its children except the last, whose coordinate is kept |
| DepsTree.Parents | depstree2html.js:69 | the node each node was pushed under, by pre-order index (-1 for a top-level node); its contract is `ParentsAppendAt` |
| DepsTree.SizeIsPreorderLength | depstree2html.js:69 | the number of nodes of a forest is the length of its pre-order |
| DepsTree.ParentsAppendAt | depstree2html.js:69 | appending a leaf below the `d`-th node of the right-most path adds exactly one parent entry: that node's pre-order index, or -1 when `d` is 0 |
| DepsTree.SpineIndexAppendAt | depstree2html.js:69-70 | after the append the right-most path keeps its first `d` nodes and ends in the new node, whose pre-order index is the old number of nodes |
| DepsTree.AllWellFormedParts | depstree2html.js:84-94 | the first node, its subtree and the remaining trees of a well-formed forest are well formed |
| DepsTree.BelowSplits | depstree2html.js:65-67 | on strictly increasing levels, the frames below `Below(levels, level)` have smaller levels and all the others have levels `>= level` |
| DepsTree.BelowIs | depstree2html.js:65-67 | where the popping stops is exactly `Below(levels, level)` |
| DepsTree.PushIncreasing | depstree2html.js:70 | pushing a level above a kept prefix whose top is smaller keeps the levels strictly increasing |
| Renderer.RenderItems | depstree2html.js:84-95 | the `for` loop of `generateHTML`: each node's `<li>` line followed by its children's list; its contract is `RenderItemsItems` and `RenderItemsLines` |
| Renderer.ItemLine | depstree2html.js:88-93 | the printed `<li>` line of one node; its contract is `DecodeItemLine` |
| Renderer.RenderForest | depstree2html.js:81-82 | `generateHTML` prints nothing exactly for an empty forest |
| Renderer.DecodeItemMarkup | depstree2html.js:85-93 | the `<li>` element of a well-formed node reads back as its coordinate, marked `class="test"` iff its scope is `test` |
| Renderer.DecodeItemLine | depstree2html.js:88 | the same for the item line at any all-space indentation |
| Renderer.ListLinesAreNotItems | depstree2html.js:83-96 | the `<ul>` and `</ul>` lines are never read as items |
| Renderer.RenderForestItems | depstree2html.js:81-97 | the `<li>` lines of a rendered forest read back, in order, as the forest's coordinates in pre-order, each marked test iff its scope is `test` |
| Renderer.RenderItemsItems | depstree2html.js:84-95 | the same for the body of the `for` loop over one level's nodes |
| Renderer.RenderForestLines | depstree2html.js:81-97 | every line printed for a forest reads back as an item, or is a `<ul>` or `</ul>` tag after all-space indentation |
| Renderer.RenderItemsLines | depstree2html.js:84-95 | the same for the body of the `for` loop over one level's nodes |
| Renderer.RenderItemCount | depstree2html.js:84-95 | `generateHTML` prints exactly one line that reads back as an item per node of the forest |
| DepsTree2Html.IsBoundary | depstree2html.js:48 | the module boundary test; `Report.FeedLine` states what a boundary line does |
| DepsTree2Html.Heading | depstree2html.js:49-51 | the module heading; its contract is `ModuleNameOf`, `HeadingWithoutName` and `HeadingIsNotItem` |
| DepsTree2Html.ModuleName | depstree2html.js:49 | the module name is a token without spaces |
| DepsTree2Html.ModuleNameOf | depstree2html.js:49 | `[INFO] Building <name> ...`, as space-free tokens joined by single spaces, names the module by its third token |
| DepsTree2Html.HeadingWithoutName | depstree2html.js:49-51 | a line of only two tokens prints the heading `<h1>undefined</h1>` |
| DepsTree2Html.HeadingIsNotItem | depstree2html.js:51 | a module heading is never read as an item |
| DepsTree2Html.FooterHasNoItems | depstree2html.js:77-78 | the closing lines hold no item |
| DepsTree2Html.AttachKeepsConsistent | depstree2html.js:65-70 | attaching a coordinate keeps the invariants: the sentinel at -1 at the bottom, strictly increasing levels, one frame per node of the right-most path, and pre-order equal to input order. The kept frames are those up to the topmost one whose level is below the new level |
| DepsTree2Html.NearestSmallerIsScan | depstree2html.js:65-69 | the nearest earlier node with a smaller level is unique: it is the latest earlier node whose level is smaller, or none |
| DepsTree2Html.ScanBackNearest | depstree2html.js:65-69 | scanning back from a point past which no level is smaller finds the nearest earlier smaller level |
| DepsTree2Html.LastBelow | depstree2html.js:65-67 | when some level in a range is below `level`, there is a last such one |
| DepsTree2Html.NewParentNearest | depstree2html.js:65-69 | the frame left on top after the popping holds the nearest earlier node whose level is below the new one; it is the root when there is none |
| DepsTree2Html.AttachSpine | depstree2html.js:69-70 | below frame `k - 1` the new node becomes frame `k`, and the frames under it keep their nodes |
| DepsTree2Html.AttachKeepsFrames | depstree2html.js:65-70 | after the step each frame holds a node of the frame's level. The frames' nodes come in increasing input order, and every node that no later node has popped is on a frame |
| DepsTree2Html.AttachKeepsParents | depstree2html.js:65-70 | after the step every node's parent is its nearest earlier node with a smaller level |
| DepsTree2Html.AttachKeepsNested | depstree2html.js:65-70 | the step keeps the frames and parents nested, as the two lemmas above state |
| DepsTree2Html.AttachedState | depstree2html.js:65-70 | the stack step keeps the whole module state, and the new node's parent is its nearest earlier node with a smaller level |
| DepsTree2Html.EmptyModule | depstree2html.js:52-53 | the empty forest with only the sentinel frame is a valid module state |
| DepsTree2Html.HeadingHasNoItems | depstree2html.js:51 | the heading line holds no item |
| DepsTree2Html.LineCoords | depstree2html.js:44-70 | the coordinates of the lines that attach a node, in input order; at most one per line |
| DepsTree2Html.AllWellFormedAppend | depstree2html.js:69 | appending a well-formed leaf keeps every node of the forest well formed |
| DepsTree2Html.Report.constructor | depstree2html.js:41-42 | an empty forest and the sentinel frame at level -1 only |
| DepsTree2Html.Report.FeedLine | depstree2html.js:44-72 | a `[INFO] Building` line renders the module so far and prints the heading, then resets root and stack, even when it also matches. A coordinate line pops every frame whose level is `>=` its own, appends the node to the frame left on top and pushes it. Any other line changes nothing. The line is recorded, and afterwards every node's parent is its nearest earlier node of the module with a smaller level |
| DepsTree2Html.Report.StartModule | depstree2html.js:48-53 | prints the rendered forest, then the heading, then starts an empty forest and stack; the coordinates of the module are then printed. The lines read are not changed |
| DepsTree2Html.Report.ResetIsValid | depstree2html.js:52-53 | an empty module after any printed output is a valid state |
| DepsTree2Html.Report.Attach | depstree2html.js:65-70 | the new node is the last child of the topmost frame whose level is below its own, and it is on top of the stack with its level. Its level is recorded, and every node's parent is its nearest earlier node with a smaller level |
| DepsTree2Html.Report.PopFrames | depstree2html.js:65-67 | the loop pops exactly the top frames whose level is `>= level`, never the sentinel |
| DepsTree2Html.Report.Flush | depstree2html.js:50-76 | appends the rendered forest and then the given lines; the printed items then read back as every coordinate matched so far. Only the output and the record of printed coordinates change |
| DepsTree2Html.Report.Finish | depstree2html.js:74-79 | the last module is rendered, then the page is closed. The `<li>` lines of the whole output read back as the coordinates of every line read that attaches a node, in input order; every kept coordinate is recorded as printed |
| LatestVersionChecker.FindIndex | depstree-latest-version-checker.js:8 | `findIndex` gives the first index holding the flag, or -1 when no argument is the flag |
| LatestVersionChecker.IgnorePackages | depstree-latest-version-checker.js:8-11 | the ignore list; its contract is `IgnorePackagesGiven` and `IgnorePackagesMissing` |
| LatestVersionChecker.IgnorePackagesGiven | depstree-latest-version-checker.js:8-11 | after the first `--ignore-packages`, the next argument split on commas is the ignore list |
| LatestVersionChecker.IgnorePackagesMissing | depstree-latest-version-checker.js:8-11 | with no flag, or with the flag as the last argument, there is no ignore list |
| LatestVersionChecker.Extract | depstree-latest-version-checker.js:94-103 | the coordinate a line yields; its contract is `ExtractWellFormed` and `ExtractOf` |
| LatestVersionChecker.ExtractWellFormed | depstree-latest-version-checker.js:94-103 | an extracted coordinate's group, artifact and version are `[\w.-]+` fields |
| LatestVersionChecker.ExtractOf | depstree-latest-version-checker.js:94-103 | a dependency line, after any text, yields its group, artifact and fourth field, and drops packaging and scope |
| LatestVersionChecker.ArtifactName | depstree-latest-version-checker.js:105 | the `group:artifact:version` name, which is the key of `deps` and, at lines 116-117, the sort key; its contract is `ArtifactNameInjective` |
| LatestVersionChecker.ArtifactNameInjective | depstree-latest-version-checker.js:105 | distinct well-formed coordinates have distinct `group:artifact:version` names |
| LatestVersionChecker.FindPrefix | depstree-latest-version-checker.js:106 | `find` returns the first entry that is a prefix of the name, and returns nothing iff no entry is |
| LatestVersionChecker.IgnoredAsWritten | depstree-latest-version-checker.js:106 | the skip test as written; its contract is `IgnoredAsWrittenSpec` |
| LatestVersionChecker.IgnoredAsWrittenSpec | depstree-latest-version-checker.js:106 | as written, a name is skipped iff there is an ignore list and the first entry that is a prefix of the name is non-empty |
| LatestVersionChecker.Ignored | depstree-latest-version-checker.js:105-108 | the skip test as evidently intended, which the collector uses: a coordinate is dropped iff there is an ignore list and some non-empty entry of it is a prefix of the name |
| LatestVersionChecker.IgnoredAsWrittenDropsLess | depstree-latest-version-checker.js:106 | whatever the filter as written drops, the intended filter drops too |
| LatestVersionChecker.LeadingEmptyEntryIgnoresNothing | depstree-latest-version-checker.js:106 | with an empty first entry the filter as written drops nothing, even a name that a later non-empty entry is a prefix of |
| LatestVersionChecker.IgnoreFilterCounterexample | depstree-latest-version-checker.js:106 | `["", "com.foo"]` keeps `com.foo:x:1` as written and drops it as intended |
| LatestVersionChecker.IgnoredAgrees | depstree-latest-version-checker.js:106 | without empty entries the filter as written and as intended agree |
| LatestVersionChecker.TrailingEmptyEntry | depstree-latest-version-checker.js:8-11 | a trailing comma in the argument changes neither filter |
| LatestVersionChecker.GatherSpec | depstree-latest-version-checker.js:109 | a name was gathered iff some element yields it |
| LatestVersionChecker.Kept | depstree-latest-version-checker.js:105-109 | what the line handler stores under the intended filter `Ignored`; its contract is `KeptNamesSpec` and `Collector.FeedLine` |
| LatestVersionChecker.KeptDropsStoredLine | depstree-latest-version-checker.js:105-109 | under an ignore list whose first entry is empty, a dependency line whose name a later non-empty entry is a prefix of passes the skip test as written but `Kept` drops it |
| LatestVersionChecker.KeptNamesSpec | depstree-latest-version-checker.js:105-109 | a name is a key of `deps` iff some line read so far yields a non-ignored coordinate of that name |
| LatestVersionChecker.KeptNamesStep | depstree-latest-version-checker.js:109 | reading a line adds its kept name to the keys, if it has one |
| LatestVersionChecker.Before | depstree-latest-version-checker.js:118 | stands in for the `localeCompare` comparator as plain lexicographic order; its contract is `BeforeIrreflexive`, `BeforeTransitive` and `BeforeTotal` |
| LatestVersionChecker.BeforeIrreflexive | depstree-latest-version-checker.js:118 | no name sorts before itself |
| LatestVersionChecker.BeforeTransitive | depstree-latest-version-checker.js:118 | the order of names is transitive |
| LatestVersionChecker.BeforeTotal | depstree-latest-version-checker.js:118 | of two distinct names one sorts before the other |
| LatestVersionChecker.Insert | depstree-latest-version-checker.js:115-119 | inserting into a sorted sequence keeps it sorted and adds exactly that element |
| LatestVersionChecker.SortByName | depstree-latest-version-checker.js:115-119 | the sort is strictly ascending by name and a permutation of its input |
| LatestVersionChecker.SortedSameHead | depstree-latest-version-checker.js:115-119 | two sorted sequences with the same elements start with the same element |
| LatestVersionChecker.SortedUnique | depstree-latest-version-checker.js:114-119 | two sorted sequences with the same elements are equal: the result does not depend on the key order of `deps` |
| LatestVersionChecker.ValuesInOrder | depstree-latest-version-checker.js:114 | `Object.values(deps)` has one value per key, in key order |
| LatestVersionChecker.Collector.constructor | depstree-latest-version-checker.js:8-19 | the ignore list is parsed from the arguments, and `deps` starts empty |
| LatestVersionChecker.Collector.FeedLine | depstree-latest-version-checker.js:93-111 | a kept coordinate is stored under its name. A new name is appended to the key order, and a repeated one is overwritten in place. Ignored and non-matching lines change nothing. The keys stay exactly the kept names of the lines read |
| LatestVersionChecker.Collector.Finish | depstree-latest-version-checker.js:113-119 | `depsArray` is strictly ascending by name, a permutation of `Object.values(deps)`, and holds exactly the values of `deps` |

## Left out

- The constant page header (`depstree2html.js:5-33`). `out` holds what follows it. `Footer` holds the two closing lines.
- `readline` and standard input. The `line` and `close` events become calls of `FeedLine` and `Finish`.
- The lookup half of the checker is not part of this model. This covers `getLatestVersion` (HTTPS and `JSON.parse`), the worker pool with its `inProgress` counter and `checkCompletion`, `fs.writeFileSync`, `new Date()`, `CONCURRENCY_LIMIT` and the `console.error` progress line. All of them are network, file or concurrency code.
- LatestVersionChecker.Collector.FeedLine: uses the intended filter `Ignored`, not the skip test as written. The two differ only when an empty entry comes before the first non-empty entry that is a prefix of the name, as in `--ignore-packages ,com.foo`. There the program keeps the line and the model drops it (see "## Findings"; `IgnoredAsWrittenDropsLess`, `IgnoredAgrees` and `TrailingEmptyEntry` bound the difference).
- LatestVersionChecker.Kept: applies the intended filter `Ignored`, not the skip test as written. With an ignore list whose empty entry comes before the first non-empty prefix entry, as `--ignore-packages ,com.foo` gives, the program stores `com.foo:x:1` from `[INFO] +- com.foo:x:jar:1:compile` and `Kept` returns nothing (`KeptDropsStoredLine` states this for every such line).
- LatestVersionChecker.Before: does not model the collation of `localeCompare`, because it depends on the locale. It is plain lexicographic order on characters.
- Node identity and aliasing. The stack's node references are modelled by the right-most path of a value forest, which they always equal.
- The general regular-expression engine. `Match` handles only this one pattern.
- The renderer consults no latest-version data, ignore list or transitive marker, and neither does the model.

## Findings

| source | as written | input that shows it | evidently intended | confidence | as-written member | corrected member |
|---|---|---|---|---|---|---|
| depstree-latest-version-checker.js:106 | `ignorePackages.find(...)` returns the matching entry, and an empty entry is falsy, so a line is dropped only if the first entry that is a prefix of its name is non-empty | `--ignore-packages ,com.foo` gives `["", "com.foo"]`, and the line for `com.foo:x:1` is kept | the line is dropped when some non-empty entry is a prefix of its name | medium, not executed | LatestVersionChecker.IgnoredAsWritten, with LatestVersionChecker.IgnoreFilterCounterexample and LatestVersionChecker.LeadingEmptyEntryIgnoresNothing | LatestVersionChecker.Ignored (the collector uses it), with LatestVersionChecker.KeptNamesSpec |
