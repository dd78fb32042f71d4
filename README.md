# Leo's outline comparison engine, in Dafny

This project models the comparison engine of Leo's `leo/commands/editFileCommands.py`:

- **File index.** `createFileDict` builds a dictionary from file index (gnx) to position for every position of an outline.
- **Change dictionaries.** `computeChangeDicts` turns two such dictionaries into three: `inserted`, `deleted` and `changed`.
- **File report.** `createAllCompareClones` and `createCompareClones` build a report under a new "Compare Two Files" node in the visible outline. It has one group per non-empty dictionary. Each listed node is skipped, cloned, or deep-copied and handed over to the visible outline.
- **Tree comparison.** `compareTrees` indexes two subtrees by normalised headline (`scan`). It compares the two indexes key by key in sorted order (`compare`) and lists what differs under one report node (`run`).
- **`@data` parser.** The `@data` parser of the stub-file maker, `MakeStubFile.scan_d`, splits `name: value` lines into a dictionary.

Modules, in dependency order:

- `Dicts` (dicts.dfy): Python dictionaries, which keep their insertion order.
- `Text` (text.dfy): `strip`, `find`, `split(sep, 1)` and `isspace`.
- `Ordering` (ordering.dfy): Python's `<` on strings and `sorted()`.
- `Outline` (outline.dfy): the arena of vnodes shared by all open outlines, and the class `Arena` whose methods change it in place.
- `ChangeSet` (changeset.dfy): `createFileDict` and `computeChangeDicts`.
- `Report` (report.dfy): `createAllCompareClones` and `createCompareClones`.
- `CompareTrees` (comparetrees.dfy): `scan`, `compare` and `run`.
- `StubData` (stubdata.dfy): `scan_d`.

How the outline is represented:

- **Vnodes.** Every vnode of every open outline lives in one arena, `Arena.nodes`, and is named by its index.
- **Outlines.** An outline (a commander) is named by its hidden root vnode. Its top-level nodes are that root's children. The `context` field of a vnode is the hidden root of the outline that owns it.
- **Positions.** A position is modelled by the vnode it denotes. The engine only ever reads `p.v`, `p.h`, `p.b` and `p.v.context`, so two positions of one vnode (clones) are interchangeable here.
- **No cycles.** A ghost `rank` decreases along every child link, so no vnode is its own descendant. `Arena.Valid` also says that no hidden root is anybody's child.
- **Dictionaries.** A Python dict is a `Dict(keys, m)`: a map and the order of its keys. Assigning to a present key keeps its place. Assigning to a new key puts it last.

## Model

| member | source | states |
|---|---|---|
| Dicts.Put | leo/commands/editFileCommands.py:145 | `d[k] = v` maps `k` to `v` and leaves every other key alone. A new key goes last; an old key keeps its place. It keeps the dictionary well formed. |
| Dicts.RestrictSpec | leo/commands/editFileCommands.py:68-75 | A loop that copies the allowed keys of a dictionary builds a well-formed dictionary. Its keys are the allowed keys seen so far, in visiting order, each with its source value. It has no key not yet visited. |
| Text.Strip | leo/commands/editFileCommands.py:216 | `s.strip()` is no longer than `s` and has no white space at either end. |
| Text.StripIdempotent | leo/commands/editFileCommands.py:219 | Stripping an already-stripped text changes nothing. |
| Text.BlankIffStripEmpty | leo/commands/editFileCommands.py:181 | `not b.strip()` holds exactly when every character of `b` is white space. |
| Text.Find | leo/commands/editFileCommands.py:217 | `h.find('.')` is -1 exactly when `h` has no `.`. Otherwise it is the index of the first `.`. |
| Text.SplitOnce | leo/commands/editFileCommands.py:517 | `s.split(':', 1)` unpacks into two halves exactly when `s` holds a `:`. The halves rejoin to `s` around its first `:`. |
| Text.SplitOnceJoin | leo/commands/editFileCommands.py:517 | Splitting `before + ':' + after` gives back `before` and `after` when `before` has no `:`. The `after` half may hold colons. |
| Ordering.LessTotal | leo/commands/editFileCommands.py:170 | Of two different strings, one sorts before the other. |
| Ordering.LessTransitive | leo/commands/editFileCommands.py:170 | The order on strings is transitive. |
| Ordering.SortedKeysPermutes | leo/commands/editFileCommands.py:170 | `sorted(d.keys())` is a permutation of the keys. |
| Ordering.SortedKeysIncreasing | leo/commands/editFileCommands.py:186 | Sorted distinct keys are strictly increasing. |
| Outline.Subtree | leo/commands/editFileCommands.py:215 | `p.self_and_subtree()` starts with `p` and visits only vnodes of the arena. |
| Outline.AllPositions | leo/commands/editFileCommands.py:144 | `c.all_positions()` visits only vnodes of the arena. |
| Outline.Arena.InsertTopLevel | leo/commands/editFileCommands.py:198 | A new childless vnode with the given headline, owned by `c`, goes in at the given index among `c`'s top-level nodes. Every other vnode is unchanged. |
| Outline.Arena.InsertAsLastChild | leo/commands/editFileCommands.py:112-113 | `parent.insertAsLastChild()` and `setHeadString(kind)`: a new childless vnode becomes the last child of `parent`. Nothing else changes. |
| Outline.Arena.AppendChild | leo/commands/editFileCommands.py:120-121 | `p.clone().moveToLastChildOf(parent)`: the vnode of `p` becomes the last child of `parent`. Nothing else changes. |
| Outline.Arena.CopyTree | leo/commands/editFileCommands.py:124 | `p.copyTreeAfter()`: a copy made of new vnodes only, owned by the given outline. It has the headline, body, kind and child shape of the tree at `p`. The old vnodes are unchanged. |
| Outline.Arena.Recontext | leo/commands/editFileCommands.py:126-127 | The loop over `copy.self_and_subtree()` sets the owner of exactly the vnodes of that tree to `c`. Nothing else changes. |
| Outline.Arena.SetBody | leo/commands/editFileCommands.py:178 | `p.b = s` changes that vnode's body and nothing else. |
| ChangeSet.CreateFileDict | leo/commands/editFileCommands.py:141-146 | The loop builds the file-index dictionary of every position of outline `c`. |
| ChangeSet.FileDictValid | leo/commands/editFileCommands.py:143-146 | The file-index dictionary is well formed. Each entry is a vnode whose file index is its key. |
| ChangeSet.FileDictLastWins | leo/commands/editFileCommands.py:144-145 | Every visited file index has an entry. A file index visited several times (clones) maps to the position visited last. |
| ChangeSet.FileDictFirstVisitOrder | leo/commands/editFileCommands.py:144-145 | Keys are listed in the order their file index was first visited. Only visited file indices are keys. |
| ChangeSet.CollectInserted | leo/commands/editFileCommands.py:68-71 | The first loop builds `Inserted(d1, d2)`: the dictionary `ChangeSet.InsertedExactly` describes. |
| ChangeSet.CollectDeleted | leo/commands/editFileCommands.py:72-75 | The second loop builds `Deleted(d1, d2)`: the dictionary `ChangeSet.DeletedExactly` describes. |
| ChangeSet.CollectChanged | leo/commands/editFileCommands.py:76-82 | The third loop builds `Changed(nodes, d1, d2)`: the dictionary `ChangeSet.ChangedExactly` describes. |
| ChangeSet.ComputeChangeDicts | leo/commands/editFileCommands.py:62-83 | The three dictionaries are `inserted`, `deleted` and `changed` of `d1` and `d2`. |
| ChangeSet.InsertedExactly | leo/commands/editFileCommands.py:68-71 | `inserted` holds exactly the keys of `d2` missing from `d1`, valued with `d2`'s positions and listed in `d2`'s order. |
| ChangeSet.DeletedExactly | leo/commands/editFileCommands.py:72-75 | `deleted` holds exactly the keys of `d1` missing from `d2`, valued with `d1`'s positions and listed in `d1`'s order. |
| ChangeSet.ChangedExactly | leo/commands/editFileCommands.py:76-82 | `changed` holds exactly the keys of both whose vnodes differ in headline or body. They are valued with `d2`'s positions and listed in `d1`'s order. |
| ChangeSet.ChangeDictsPartition | leo/commands/editFileCommands.py:68-82 | The three dictionaries are pairwise disjoint. A key of either index is inserted, deleted or in both. |
| ChangeSet.NoChangesBetweenEqualIndexes | leo/commands/editFileCommands.py:62-83 | Two indexes with the same keys whose vnodes agree in headline and body give three empty dictionaries. |
| Report.KeptExactly | leo/commands/editFileCommands.py:114-118 | A group gets exactly the listed nodes that are not skipped. An `@<file>` node is skipped when the title does not end in `.leo`. |
| Report.CopyInto | leo/commands/editFileCommands.py:122-127 | A node of the other outline becomes the last child of the group as a deep copy. The copy is made of new vnodes, all owned by the visible outline. Every other old vnode is unchanged. |
| Report.AttachOne | leo/commands/editFileCommands.py:115-127 | One round of the loop adds nothing for a skipped node. A node of the visible outline is added as itself (a clone). Any other node is added as an owned deep copy. |
| Report.AttachAll | leo/commands/editFileCommands.py:114-127 | After the loop, the group's children attach the kept nodes of `d` in key order. |
| Report.CreateCompareClones | leo/commands/editFileCommands.py:109-127 | An empty `d` changes nothing. Otherwise a new last child of `parent` titled `kind` attaches the kept nodes of `d` in key order. No other old vnode changes, so the listed trees are left as they were. |
| Report.AddGroup | leo/commands/editFileCommands.py:99-104 | One round of the loop adds the group of one dictionary to the report, if the dictionary is not empty. |
| Report.Groups | leo/commands/editFileCommands.py:99-110 | Only non-empty dictionaries get a group. |
| Report.PlanGroups | leo/commands/editFileCommands.py:99-104 | Each dictionary gets a group titled by its kind exactly when it is not empty. `deleted` comes first and `changed` last. |
| Report.CreateAllCompareClones | leo/commands/editFileCommands.py:85-107 | The corrected report. A new first top-level node titled "Compare Two Files" has one group per non-empty dictionary, in the order deleted, inserted, changed. Each group attaches its kept nodes. No other old vnode changes. |
| Report.InsertAfterAsWritten | leo/commands/editFileCommands.py:93 | `c.p.insertAfter()` makes the new vnode the next sibling of the selected position. Every other vnode is unchanged. |
| Report.InsertAfterRanked | leo/commands/editFileCommands.py:93 | Inserting the report root after a position keeps the outline acyclic. |
| Report.GroupedLinked | leo/commands/editFileCommands.py:109-127 | The vnodes `createCompareClones` leaves for a non-empty dictionary have a new last child of the report root. Every kept node owned by the visible outline is among that child's children, as a clone. No other old vnode changes. |
| Report.TopLevelDeleted | leo/commands/editFileCommands.py:72-75 | A top-level node of the visible outline is listed as deleted, under its own position, when no other vnode has its file index and the other file lacks that index. |
| Report.LinkedUnderMember | leo/commands/editFileCommands.py:109-127 | A group made under a childless root that is a child of one of the group's own clones leaves an outline that cannot be ranked. |
| Report.InsertAfterMakesCycle | leo/commands/editFileCommands.py:93 | The selected position is a child of a top-level node `X` of the visible outline. The other file lacks `X`'s file index, and no other vnode has it. Then the root made by `insertAfter` keeps the outline acyclic, and `X` is listed as deleted. But no outline with the links of the first group, the deleted group made under that root, can be ranked. |
| CompareTrees.HeadKey | leo/commands/editFileCommands.py:216-219 | A normalised headline has no white space at either end. |
| CompareTrees.HeadKeySplit | leo/commands/editFileCommands.py:216-219 | The key is the stripped text after the first `.` of the stripped headline, or the whole stripped headline when it has no `.`. |
| CompareTrees.HeadKeyQualified | leo/commands/editFileCommands.py:216-219 | A qualified name `cls.name` is filed under `name`. |
| CompareTrees.HeadKeyPlain | leo/commands/editFileCommands.py:216-219 | A trimmed headline without a `.` is its own key. |
| CompareTrees.ScanOf | leo/commands/editFileCommands.py:214-223 | The dictionary `scan` builds is well formed. |
| CompareTrees.ScanVisited | leo/commands/editFileCommands.py:220-223 | Every visited key has an entry. |
| CompareTrees.ScanOnlyVisited | leo/commands/editFileCommands.py:220-223 | Each entry is a position visited with that key. |
| CompareTrees.ScanFirstWins | leo/commands/editFileCommands.py:220-223 | A key's entry is the first position visited with it. Later duplicates are not stored. |
| CompareTrees.ScanEntries | leo/commands/editFileCommands.py:215-223 | Each entry is a visited vnode whose headline normalises to its key. |
| CompareTrees.ScanStep | leo/commands/editFileCommands.py:220-223 | One visit adds a new key and skips a duplicate. |
| CompareTrees.Scan | leo/commands/editFileCommands.py:208-224 | `scan(p)` builds the first-position dictionary of the tree at `p`. |
| CompareTrees.ScanPositions | leo/commands/editFileCommands.py:215-223 | The loop over the visited positions builds their first-position dictionary. |
| CompareTrees.ScanTreeIn | leo/commands/editFileCommands.py:208-224 | Each entry of a tree's dictionary is a vnode of that tree whose headline gives its key. |
| CompareTrees.ScanTreeOwnKey | leo/commands/editFileCommands.py:215-223 | The root of the scanned tree is the entry of its own key. |
| CompareTrees.SortedKeysOf | leo/commands/editFileCommands.py:170 | `sorted(d.keys())` lists every key of `d` once, in increasing order. |
| CompareTrees.EmitShape | leo/commands/editFileCommands.py:171-192 | At most one node is emitted per key. It clones the key's position on the scanned side, plus the other side's position only when the key is on both. The second pass emits only keys missing from `d1`. |
| CompareTrees.PassOnlyEmitted | leo/commands/editFileCommands.py:170-185 | A pass lists only nodes its keys emit. |
| CompareTrees.PassAllEmitted | leo/commands/editFileCommands.py:170-185 | A pass lists every node its keys emit. |
| CompareTrees.PassOrdered | leo/commands/editFileCommands.py:170 | A pass over sorted keys lists its nodes by increasing key. |
| CompareTrees.PlanOnlyEmitted | leo/commands/editFileCommands.py:167-193 | Every node of the comparison is one that a key of `d1` (first pass) or of `d2` (second pass) emits. |
| CompareTrees.PlanAllEmitted | leo/commands/editFileCommands.py:167-193 | Every node that a key of either pass emits is in the comparison. |
| CompareTrees.CompareBoth | leo/commands/editFileCommands.py:172-180 | A key on both sides is reported exactly when the diff of the two bodies is not empty. The report node is titled with the key, holds the diff and clones both positions. |
| CompareTrees.CompareOnlyFirst | leo/commands/editFileCommands.py:181-185 | A key only in `d1` is reported exactly when its body is not blank. The node is titled `k(<headline> only)` and clones that position. |
| CompareTrees.CompareOnlySecond | leo/commands/editFileCommands.py:186-192 | A key only in `d2` is reported exactly when its body is not blank. The node is titled `k(<headline> only)` and clones that position. |
| CompareTrees.CompareOrder | leo/commands/editFileCommands.py:170-192 | Keys of `d1` come first, by increasing key, then the keys only in `d2`, by increasing key. No key is reported twice. |
| CompareTrees.SameIndexNoEntries | leo/commands/editFileCommands.py:167-193 | Comparing an index with itself reports nothing, when the diff of a body with itself is empty. |
| CompareTrees.AddEntry | leo/commands/editFileCommands.py:176-180 | One new last child of `root` gets the entry's title, its joined diff as body and the entry's clones as children. Nothing else changes. |
| CompareTrees.EmitNext | leo/commands/editFileCommands.py:171-192 | One key of one pass appends what that key emits. |
| CompareTrees.ComparePass | leo/commands/editFileCommands.py:170-185 | One pass of `compare` appends, in order, what its keys emit. |
| CompareTrees.Compare | leo/commands/editFileCommands.py:167-193 | `compare` gives `root` one new child per entry of the comparison, in order. Nothing else changes. |
| CompareTrees.Run | leo/commands/editFileCommands.py:195-206 | The corrected `run`. A new first top-level node titled `tag` has one child per entry of the comparison of the trees of `p1` and `p2`, taken as they were before the call. No other old vnode changes. |
| CompareTrees.ScanTreeFrame | leo/commands/editFileCommands.py:198-201 | Inserting the report root before scanning does not change what either scan finds. |
| CompareTrees.TreesPlanBoth | leo/commands/editFileCommands.py:172-180 | Two trees whose roots share a key but differ in body yield a report node that clones both roots. |
| CompareTrees.RunInsertAfterMakesCycle | leo/commands/editFileCommands.py:198 | As written, with the selected position a child of `p1`, the report clones `p1` under a node inside `p1`'s own tree. This happens when `p2` itself has `p1`'s key and a body that differs from `p1`'s. No ranking of the result exists. |
| StubData.LineOf | leo/commands/editFileCommands.py:517-519 | A line unpacks into a name and a value exactly when it holds a `:`. |
| StubData.ParseOf | leo/commands/editFileCommands.py:516-519 | Parsing lines never fails as not iterable. A successful parse yields a well-formed dictionary. |
| StubData.ScanDataAsWritten | leo/commands/editFileCommands.py:506-524 | `scan_d` as written fails as not iterable exactly when there is no `@data` node. |
| StubData.ScanData | leo/commands/editFileCommands.py:506-524 | The corrected `scan_d`. A missing node gives the empty dictionary. Otherwise it behaves as written. |
| StubData.ScanDataMissingNode | leo/commands/editFileCommands.py:514-516 | The written and the corrected `scan_d` differ exactly when the node is missing. |
| StubData.ParseOfOutcome | leo/commands/editFileCommands.py:516-518 | Parsing succeeds exactly when every line unpacks. Otherwise it fails at the first line that does not. |
| StubData.ParseOfNext | leo/commands/editFileCommands.py:517-519 | A line that unpacks adds its stripped name and value to the dictionary parsed so far. |
| StubData.ParseOfStops | leo/commands/editFileCommands.py:516-517 | The first line that cannot be unpacked ends the parse with that failure. |
| StubData.ScanDataFails | leo/commands/editFileCommands.py:516-517 | `scan_d` succeeds exactly when every line holds a `:`. Otherwise it fails at the first line without one. |
| StubData.ParseOfNames | leo/commands/editFileCommands.py:516-519 | After a successful parse, every line's name is a key. |
| StubData.ParseOfOrigin | leo/commands/editFileCommands.py:516-519 | Every key comes from some line. |
| StubData.ParseOfLastWins | leo/commands/editFileCommands.py:519 | A name given on several lines takes the value of the last one. |
| StubData.ColonsInValue | leo/commands/editFileCommands.py:517 | Only the first `:` separates; the value may hold more colons. |
| StubData.RenderRoundTrip | leo/commands/editFileCommands.py:516-519 | Writing a dictionary out as `name:value` lines and scanning them gives it back. This holds when no name has a colon and no name or value has white space at either end. |
| StubData.ScanD | leo/commands/editFileCommands.py:506-524 | The method computes the corrected `scan_d`. |
| StubData.ScanLines | leo/commands/editFileCommands.py:516-519 | The loop gives the parse of all lines: a dictionary, or the index of the first line without a `:`. |

## Left out

- Undo bookkeeping is not modelled: `beforeChangeGroup`, `beforeInsertNode`, `afterInsertNode`, `afterChangeGroup`.
- Selection, expansion, contraction and redraw are GUI effects and are not modelled.
- Trace and warning output is not modelled: `g.trace`, `g.es_print` for a duplicate key, and the debugging `print` of `scan_d`. The warning of `scan_d` about a missing node has no effect on its result.
- `difflib.unified_diff` over `g.splitLines` of two bodies is a foreign library. It is the function parameter `diff`, whose result is a list of lines. The model relies only on whether that list is empty. `''.join` of the list is `Text.Join`.
- The file names `fn1` and `fn2` are parameters. `g.shortFileName` and the wrapped-file lookup are not modelled.
- The lines of an `@data` node are a parameter: `c.config.getData` is configuration lookup. `Option.None` stands for a missing node.
- The rest of `MakeStubFile` is out of scope: its outline navigation, file writing and stub generation.
- The other commands of the file are out of scope: opening the two files, hidden commanders, `dumpCompareNodes`, and file and directory commands.
- New file indices come from the parameter `gen`, a function from the new vnode's arena index to a gnx. Leo's id generator is not modelled.
- `p.isAnyAtFileNode()` is the `atFile` flag of a vnode. Leo's headline test for it is not modelled.
- `leo/core/leoNodes.py` is not part of this model. The model assumes the following meanings for its operations:
  - `insertAfter` makes a new childless vnode the next sibling;
  - `insertAsLastChild` makes a new childless vnode the last child;
  - `p.clone()` followed by `moveToLastChildOf(parent)` leaves the vnode of `p` where it was and adds it as the last child of `parent`;
  - `copyTreeAfter()` followed by `moveToLastChildOf(parent)` puts a deep copy of new vnodes under `parent`. A vnode met twice in the copied tree (a clone) is copied twice;
  - a new node is owned by the outline it is inserted into. So the report root and the group nodes are owned by the visible outline, and the nodes made by `compare` by the owner of the report root.
- CompareTrees.Run: puts the report root first among the top-level nodes on every input. As written, `run` puts it right after the selected position, so it is never the first top-level node. The model does not keep the written placement even where that placement is harmless.
- StubData.ScanLines: splits every line before its loop rather than one line per round. The outcome is the same.

## Findings

| source | as written | input that shows it | evidently intended | confidence | as-written member | corrected member |
|---|---|---|---|---|---|---|
| leo/commands/editFileCommands.py:93 | `c.p.insertAfter()` puts the report root right after the selected position, wherever that is | The selected position lies under a top-level node `X` of the visible outline, and the other file lacks `X`. `X` is then listed as deleted and cloned under the report, which lies under `X`: the outline gets a cycle | The report root goes first among the top-level nodes, as the comment at :89 says | medium, not executed | Report.InsertAfterMakesCycle | Report.CreateAllCompareClones |
| leo/commands/editFileCommands.py:198 | `c.p.insertAfter()` puts the report root right after the selected position, which may lie inside a compared tree | The selected position is a child of `p1`, and `p2` itself has `p1`'s key and a different body. The report clones `p1` under a node inside `p1`'s own tree: a cycle | The report root goes outside both compared trees. The corrected model puts it first among the top-level nodes; that placement is this model's choice | medium, not executed | CompareTrees.RunInsertAfterMakesCycle | CompareTrees.Run |
| leo/commands/editFileCommands.py:514-516 | `if not aList` only warns, then `for s in aList` iterates over `None` and raises `TypeError` | No `@data` node of the requested kind, so the lookup returns `None` | A missing node gives the empty dictionary, after the warning | high, not executed | StubData.ScanDataAsWritten | StubData.ScanData |

Notes on the source:

- `scan` keeps the first position of each key and only reports later duplicates.
- The title of a one-sided node is the key followed by the node's own headline, `h + '(' + p.h + ' only)'`.
- In `run`, the two scans happen after the report root is inserted. In the corrected model that root lies outside both trees, so the order does not matter (`CompareTrees.ScanTreeFrame`).
