# BSA/BA2 archive handler, modelled in Dafny

This project models the core of a Rust tool for Bethesda game archives. The tool reads and writes
TES3 BSA (Morrowind), TES4 BSA (Oblivion to Skyrim SE) and BA2 (Fallout 4, Fallout 76, Starfield)
archives, and its GUI shows an archive's contents as a selectable folder tree. The model covers
four parts:

- **Selection tree** (`GuiState`, `SelectionTree`, `TreeBuild`, `TreeCount`, `Search`). The GUI
  state is a class whose `tree` field is an arena of nodes. Children are index lists and the parent
  is an optional index.
  - Building it from flat paths: the folder-prefix collection, grouping by parent path, sorting and
    the depth-first layout.
  - Flag updates: expand, select subtree, recount ancestors, select all and select none.
  - The `*` wildcard search, visibility, and the selection queries.
  - Proved: the structural and tri-state invariants, the order of children, the exact count of
    folder and file nodes, and the meaning of the greedy wildcard matcher.
- **Front door** (`Archive`).
  - Format detection from the sniffed signature with the extension fallback.
  - The eleven-entry game profile table with its index and CLI-name round trips.
  - The archive-type and header-version name heuristics.
  - Listing and batch extraction dispatched to the reader for the format, with the wanted-path set
    normalised to that reader's convention.
- **Builders** (`Ba2Writer`, `BsaWriter`). Classes holding the map of pending files, with setters,
  path normalisation on `add_file`, last-write-wins, the empty-archive error, and the build step.
  For BSA the build flattens the folder map, encodes each entry and regroups the results by folder.
  The model proves that every entry comes back under its folder.
- **Readers** (`Tes3Reader`, `BsaReader`, `Ba2Reader`, `Batch`). The archive is an abstract
  sequence of entries with opaque payloads. The model covers:
  - the full-path construction of `list_files`;
  - the case- and separator-insensitive first-match lookup of `extract_file`;
  - the batch filter that keeps wanted entries in archive order, with the callbacks run one after
    another.

The `ba2` crate's codecs (compression, decompression, DDS parsing, signature sniffing) are not
visible to the model. They appear as function parameters that may fail (`Option`), and file
reading appears as an already-opened archive value. `Text` holds the string operations the
source takes from the Rust standard library: ASCII lower-casing, single-character replace, `find`,
`rfind`, `split` and `trim_start_matches`.

## Model

| member | source | states |
|---|---|---|
| GuiState.AppState.constructor | src/gui/state.rs:56-67 | A fresh state has no nodes and an empty filter, and the tree invariants hold. |
| GuiState.AppState.BuildTreeFromPaths | src/gui/state.rs:115-180 | Node 0 is the root: empty path, depth 0, folder, expanded, selected, no parent. Every link goes from parent to later child and back. Every other node is expanded, selected, not partial, has a parent, and its depth is its number of `\`-components. Children lists put folders first, then sort by lower-cased name, and the tri-state rule (childless nodes exempt) holds. There is exactly one folder node per proper folder prefix of a normalised path, and folder nodes appear only at such prefixes. File nodes are exactly the normalised input paths, with multiplicity, so `total_count` equals the number of paths. |
| GuiState.AppState.BuildTreeDfs | src/gui/state.rs:183-217 | Each entry listed under the parent path becomes, in order, a child of the parent node. A folder's own entries follow it at once, and the links stay consistent. |
| GuiState.AppState.ToggleExpand | src/gui/state.rs:220-224 | The new tree is `ExpandToggled` of the old one. The tree invariants are kept. |
| GuiState.AppState.ToggleSelect | src/gui/state.rs:227-233 | An index out of range changes nothing. Otherwise: every node of the subtree takes the opposite of the node's old selection and is not partial; then the ancestors are recounted. No node outside the subtree and its ancestors changes, the links are kept, and the tri-state rule (childless nodes exempt) is preserved. |
| GuiState.AppState.SetSelectedRecursive | src/gui/state.rs:235-242 | The tree becomes `SelectSubtree(old, index, selected)`: the node and all its descendants are marked and cleared of partial, and every other node is unchanged. |
| GuiState.AppState.UpdateParentSelection | src/gui/state.rs:244-260 | The tree becomes `Propagated(old, index)`: each ancestor, from the parent up to the root, is recounted from its children. |
| GuiState.AppState.SelectAll | src/gui/state.rs:263-268 | Every node becomes selected and not partial. On a linked tree the tri-state rule (childless nodes exempt) then holds, and `selected_count == total_count`. |
| GuiState.AppState.SelectNone | src/gui/state.rs:271-276 | Every node becomes cleared and not partial. On a linked tree the tri-state rule (childless nodes exempt) then holds, and `selected_count == 0`. |
| GuiState.AppState.SetSearch | src/gui/state.rs:279-281 | The filter becomes the given string, and the tree is unchanged. |
| SelectionTree.SelectSubtree | src/gui/state.rs:235-242 | Marking a subtree keeps every parent and child link. |
| SelectionTree.SelectSubtreeTriState | src/gui/state.rs:235-242 | After marking a subtree, the tri-state rule holds everywhere except possibly at the subtree root's proper ancestors. |
| SelectionTree.Recount | src/gui/state.rs:244-260 | Recounting one node keeps every link. |
| SelectionTree.Propagated | src/gui/state.rs:244-260 | The upward pass keeps every link. |
| SelectionTree.PropagatedTriState | src/gui/state.rs:244-260 | If the tri-state rule is broken only above a node, recounting its ancestors restores the rule everywhere. |
| SelectionTree.PropagatedTouchesAncestors | src/gui/state.rs:244-260 | The upward pass changes only the proper ancestors of the start node, and only their two selection flags. |
| SelectionTree.TriStateExclusive | src/gui/state.rs:244-260 | Under the tri-state rule, no node is both selected and partially selected. |
| SelectionTree.MarkAll | src/gui/state.rs:263-276 | Selecting all or none keeps every link. |
| SelectionTree.MarkAllTriState | src/gui/state.rs:263-276 | After selecting all or none, a linked tree satisfies the tri-state rule (childless nodes exempt). |
| SelectionTree.MarkAllCounts | src/gui/state.rs:263-276 | After selecting all, every file counts as selected. After selecting none, no file does. The number of files does not change. |
| SelectionTree.SelectedFiles | src/gui/state.rs:389-396 | The result holds the path of every selected non-folder node, and every path in it belongs to one. |
| SelectionTree.SelectedCount | src/gui/state.rs:398-404 | There are never more selected files than files. |
| SelectionTree.TotalCount | src/gui/state.rs:406-408 | At most one per node. TreeCount.TotalCountFiles gives the exact count. |
| SelectionTree.SelectedCounts | src/gui/state.rs:389-408 | The number of selected-file paths is `selected_count`, which is at most `total_count`. |
| SelectionTree.NodeOrDescendantsMatch | src/gui/state.rs:325-341 | An empty filter keeps every node, and a node that passes the filter is kept. A childless node is kept exactly when it passes. |
| SelectionTree.NodeOrDescendantsMatchSpec | src/gui/state.rs:325-341 | The recursive check holds exactly when some node of the subtree (the node itself included) passes the filter. |
| SelectionTree.IsVisible | src/gui/state.rs:343-361 | A visible node passes the subtree test. The root is visible exactly when the filter is empty or its subtree has a match. A visible node's parent comes earlier, is expanded, and is visible itself. |
| SelectionTree.IsVisibleSpec | src/gui/state.rs:343-361 | A node is visible exactly when (a) the filter is empty or some node of its subtree passes it, and (b) every proper ancestor is expanded. |
| SelectionTree.ExpandToggled | src/gui/state.rs:220-224 | Toggling expansion keeps every link. |
| SelectionTree.ExpandToggledProperties | src/gui/state.rs:220-224 | Toggling twice restores the tree. Toggling changes only the `expanded` flag of the given node, and keeps the tri-state rule. |
| Search.MatchesSearch | src/gui/state.rs:284-322 | The result is the corrected `Matches`, and it holds exactly when the filter matches as a glob: empty matches all; otherwise case-insensitive, with no `*` meaning substring, and `*` meaning pieces at start, in order and at end. |
| Search.PiecesSearch | src/gui/state.rs:293-318 | The loop over the pieces, with the advancing position, computes `PiecesMatch`. |
| Search.MatchesIsGlob | src/gui/state.rs:284-322 | The leftmost-greedy matcher (first piece at 0, middle pieces found leftmost in order, last piece ending the text) agrees with the glob meaning: some placement of the pieces fits. |
| Search.LeftmostComplete | src/gui/state.rs:297-311 | If the pieces fit in order inside a bound, the leftmost search finds them and ends within that bound. |
| Search.LeftmostSound | src/gui/state.rs:297-311 | If the leftmost search ends within a bound, the pieces fit in order inside it. |
| Search.MatchesAsWritten | src/gui/state.rs:284-322 | Whatever the code as written accepts, the corrected matcher accepts too. Its flaw only hides nodes, and never shows one that should be hidden. |
| Search.AsWrittenAgreesWithTrailingStar | src/gui/state.rs:313-318 | For a filter ending in `*`, the code as written and the corrected matcher agree. |
| Search.AsWrittenMissesSuffix | src/gui/state.rs:297-316 | The code as written rejects `*s` against `meshes`, which the glob meaning and the corrected matcher accept. |
| Search.MatchesIgnoresCase | src/gui/state.rs:289-290 | Lower-casing the filter or the path never changes the result. |
| TreeBuild.Normalize | src/gui/state.rs:122 | Every `/` becomes `\`, and every other character is kept. |
| TreeBuild.ParentKey | src/gui/state.rs:131-137 | The parent path of a non-empty path is strictly shorter, and the root's is empty. |
| TreeBuild.PathRebuilt | src/gui/state.rs:131-137 | A path with a separator is its parent path, `\` and its base name. A path without one has the empty parent and is its own base name. |
| TreeBuild.ParentKeyIsJoin | src/gui/state.rs:131-137 | The base name is the last `\`-component. The parent path is the other components joined with `\` (empty for a single component). |
| TreeBuild.JoinSplit | src/gui/state.rs:123-125 | Joining the components of a split gives back the string. |
| TreeBuild.FolderPrefixesJoined | src/gui/state.rs:120-128 | The joined component prefixes the code collects are exactly the prefixes cut at a separator, including a cut at position 0. The folders the model uses are exactly those that are not empty. |
| TreeBuild.FolderKeyGrows | src/gui/state.rs:120-128 | A folder prefix is never empty, its parent path is shorter, and it is shorter than some input path. |
| TreeBuild.CollectFolders | src/gui/state.rs:120-128 | The set holds exactly the non-empty folder prefixes of the normalised paths. |
| TreeBuild.LeadingSeparatorAsWritten | src/gui/state.rs:120-128 | As written, `/a` yields the empty folder. The empty folder is listed under its own parent path (the empty one), so the walk would re-enter it. The corrected set excludes it. |
| TreeBuild.FolderEntries | src/gui/state.rs:130-142 | One folder entry per folder, in order, named by its last component. |
| TreeBuild.FileEntries | src/gui/state.rs:144-157 | One file entry per path, in order, holding the normalised path and its last component. |
| TreeBuild.Direct | src/gui/state.rs:138-141 | The entries kept are exactly those whose parent path is the key. |
| TreeBuild.GroupedIsDirect | src/gui/state.rs:138-156 | Grouping keeps, under each parent path, exactly the entries with that parent path, in input order. |
| TreeBuild.GroupChildren | src/gui/state.rs:130-157 | Every folder is taken once, in the set's order. The map is the grouping of the folder entries followed by the file entries. |
| TreeBuild.Insert | src/gui/state.rs:159-165 | Inserting into an ordered list keeps it ordered and adds exactly the entry. |
| TreeBuild.SortEntries | src/gui/state.rs:159-165 | The result is ordered (folders first, then by lower-cased name) and is a permutation of the input. |
| TreeBuild.SortChildren | src/gui/state.rs:159-165 | Same keys. Each list is sorted and is a permutation of the original list. |
| TreeBuild.BeforeTotal | src/gui/state.rs:160-164 | The sibling order compares any two entries. |
| TreeBuild.LexAntisymmetric | src/gui/state.rs:163 | Two names that are each ordered no later than the other are equal. |
| TreeBuild.NewNode | src/gui/state.rs:195-208 | A new node carries the entry, has no children, has the given parent, is expanded, selected and not partial, and its depth is its number of components. |
| TreeBuild.Attach | src/gui/state.rs:196-210 | The node is pushed at the end and its index is appended to the parent's children. Nothing else changes. |
| TreeBuild.AttachStructured | src/gui/state.rs:196-210 | Attaching a childless node under an existing parent keeps the links consistent. |
| TreeBuild.LaidOrdered | src/gui/state.rs:159-210 | After the walk, every non-root node is expanded, selected, not partial and has a parent, with depth equal to its number of components. Every children list is ordered, and the tri-state rule holds. |
| TreeBuild.WalkedBelow | src/gui/state.rs:189-216 | After the walk below a node, its children name the listed entries in order. The nodes after it carry exactly the entries gathered below it, as a multiset. |
| TreeBuild.MaxLen | src/gui/state.rs:121-127 | It bounds the length of every input path. |
| TreeCount.AncestorUnique | src/gui/state.rs:130-142 | Each path has at most one ancestor directly below a given folder. |
| TreeCount.CutAncestor | src/gui/state.rs:120-128 | Every ancestor of a folder prefix is itself a prefix cut at a separator. |
| TreeCount.SpreadBelow | src/gui/state.rs:130-157 | When the closure conditions hold, listing a folder's direct entries and recursing into its subfolders yields every entry below that folder exactly once. |
| TreeCount.BuildClosed | src/gui/state.rs:120-157 | In the build's entries, every folder appears once, and every ancestor of an entry is a listed folder. |
| TreeCount.BuildGathered | src/gui/state.rs:130-179 | Walking the sorted map from the root gathers exactly the folder entries plus the file entries, as a multiset. |
| TreeCount.BuiltTotal | src/gui/state.rs:406-408 | A built tree has as many file nodes as input paths. |
| TreeCount.BuiltNodes | src/gui/state.rs:120-157 | Below the root, each folder prefix has exactly one node. Each file entry has as many nodes as it has input paths. Every folder node is a folder prefix. |
| TreeCount.TotalCountFiles | src/gui/state.rs:406-408 | `total_count` is the number of non-folder entries among the nodes. |
| Archive.DetectFormat | src/archive/mod.rs:53-83 | The signature decides. Without one, the extension `bsa` or `ba2`, in any case, decides, and anything else gives nothing. A TES3 archive comes only from the signature. |
| Archive.GameVersion.BsaVersion | src/archive/mod.rs:245-254 | A TES4 header version exists exactly for the profiles that are neither BA2 nor TES3. |
| Archive.GameVersion.Ba2Version | src/archive/mod.rs:257-266 | A BA2 version exists exactly for the BA2 profiles. |
| Archive.GameVersion.SupportsCompression | src/archive/mod.rs:240-242 | Compression is unavailable exactly for TES3 and for v103 BSA, that is Morrowind and Oblivion. |
| Archive.GameVersion.Ba2Compression | src/archive/mod.rs:269-274 | LZ4 exactly for the Starfield (v2, v3) containers, zlib otherwise, and never none. |
| Archive.GameVersion.Index | src/archive/mod.rs:312-326 | The index is between 0 and 10. |
| Archive.AllGameVersions | src/archive/mod.rs:277-291 | Eleven profiles, the k-th having index k. |
| Archive.AllGameVersionsComplete | src/archive/mod.rs:277-291 | Every profile sits in `all()` at its own index. |
| Archive.AllGameVersionsDistinct | src/archive/mod.rs:277-291 | `all()` has no repeats. |
| Archive.FromIndex | src/archive/mod.rs:294-309 | An index from 0 to 10 gives the profile with that index. Any other index gives the default FO4/FO76 profile. |
| Archive.FromIndexOfIndex | src/archive/mod.rs:294-326 | `from_index(v.index()) == v`. |
| Archive.GameVersion.CliName | src/archive/mod.rs:329-343 | Every CLI name is non-empty and already lower case, so the lower-casing lookup can reach it. |
| Archive.FindByCliName | src/archive/mod.rs:346-352 | A found profile is in the list and has the CLI name asked for. Nothing is found exactly when no profile in the list has that name. |
| Archive.FromCliName | src/archive/mod.rs:346-352 | A found profile's CLI name is the lower-cased input. Nothing is found exactly when no profile has that name. |
| Archive.CliNameRoundTrip | src/archive/mod.rs:329-352 | Every profile is found again from its own CLI name. |
| Archive.CliNameInjective | src/archive/mod.rs:329-343 | No two profiles share a CLI name. |
| Archive.FromCliNameIgnoresCase | src/archive/mod.rs:346-352 | The lookup ignores case. |
| Archive.DetectGameVersion | src/archive/mod.rs:356-376 | TES3 gives Morrowind, BA2 the default FO4/FO76 profile, and no format gives nothing. A BSA gets the profile of its header version, or Fallout 3 when the header is unreadable. |
| Archive.OblivionFlagsAreUncompressedFo3Flags | src/archive/mod.rs:379-392 | The Oblivion defaults are the FO3 defaults without the compressed and retain flags. |
| Archive.DetectTypes | src/archive/mod.rs:396-412 | The result is one of meshes, textures, menus and voices, voices, sounds, or misc. On the lower-cased name: meshes exactly when it has "meshes"; textures exactly when it has "textures" but not "meshes"; voices exactly when it has "voices" but neither earlier keyword; menus exactly when it has "menuvoices" under the same condition; sounds exactly when it has "sound" but none of "meshes", "textures", "voices"; misc exactly when it has none of the four keywords. |
| Archive.HeuristicsIgnoreCase | src/archive/mod.rs:396-436 | Both name heuristics ignore case. |
| Archive.DetectVersion | src/archive/mod.rs:416-436 | v103 exactly when the lower-cased name contains one of the ten Oblivion markers, v104 otherwise, and never v105. |
| Archive.NormalizeWanted | src/archive/mod.rs:150-172 | An undetected format is an error. Otherwise the set holds exactly the per-format keys of the wanted paths, and has no more elements than there are wanted paths. |
| Archive.WantedKeyShape | src/archive/mod.rs:153-169 | The keys are lower case. BSA keys have no `/`, and BA2 keys have no `\`. |
| Archive.ListArchiveFiles | src/archive/mod.rs:93-119 | No format gives an error. Otherwise the result is the listing of that format's reader, or an error when the archive does not open. |
| Archive.ExtractArchiveFilesBatch | src/archive/mod.rs:142-174 | No format gives an error. Otherwise the result is the batch outcome of that format's reader on the normalised wanted set. |
| Archive.ListedTes3PathsAllSelected | src/archive/mod.rs:152-155 | Asking for every listed TES3 path selects every entry. |
| Archive.ListedBsaPathsAllSelected | src/archive/mod.rs:156-163 | Asking for every listed BSA path selects every entry, when no name contains `/`. |
| Archive.ListedBa2PathsAllSelected | src/archive/mod.rs:164-171 | Asking for every listed BA2 path selects every entry. |
| Batch.Matching | src/archive/reader.rs:110-128 | The selection keeps exactly the entries whose lookup key is wanted, in archive order. |
| Batch.Select | src/archive/reader.rs:110-128 | The filtering loop computes `Matching`. |
| Batch.MatchingBoundedByWanted | src/archive/reader.rs:110-128 | With distinct lookup keys, no more entries are selected than there are wanted keys. |
| Batch.Deliver | src/archive/reader.rs:130-153 | Success exactly when every selected entry decodes and its callback succeeds, and the count is then the number of selected entries. Otherwise the error is the decode or callback failure of some selected entry. |
| Tes3Reader.ListFiles | src/archive/tes3_reader.rs:21-25 | One path per entry, in archive order, verbatim. |
| Tes3Reader.ExtractFile | src/archive/tes3_reader.rs:42-58 | The data of the first entry whose name equals the request, with `/` read as `\` and case ignored. Not found exactly when no entry matches. |
| Tes3Reader.Tes3Matches | src/archive/tes3_reader.rs:42-52 | A matching key has the request's length, and a key spelled with `/` never matches, since the request's `/` become `\`. |
| Tes3Reader.Tes3MatchesNormalisedRequest | src/archive/tes3_reader.rs:42-52 | The match ignores the request's case and its separator style. |
| Tes3Reader.ExtractFilesBatch | src/archive/tes3_reader.rs:77-103 | The batch outcome of the entries whose lower-cased name is wanted, delivered under their original names. |
| BsaReader.FullPath | src/archive/reader.rs:32-36 | The bare file name when the folder is `""` or `"."`, otherwise folder, `\` and file name. |
| BsaReader.Entries | src/archive/reader.rs:25-40 | One entry per (folder, file) pair in archive order, carrying its full path. |
| BsaReader.ListFiles | src/archive/reader.rs:25-40 | The full paths of the entries, in order. |
| BsaReader.SplitRequest | src/archive/reader.rs:56-61 | With `/` read as `\`: a request without `\` is all file name, with the folder empty. Otherwise folder, `\` and file name rebuild the request, and the file name has no `\`, so the split is at the last `\`. |
| BsaReader.ExtractFile | src/archive/reader.rs:56-89 | The first pair whose folder and file name match the split request, ignoring ASCII case, is decoded. A decode failure is an error, and no match gives not-found. Corrected: a request without a folder also finds files of the root folder `.`. |
| BsaReader.ListedPathIsFound | src/archive/reader.rs:25-82 | With the correction, every listed path finds its own pair. |
| BsaReader.MatchesAsWritten | src/archive/reader.rs:64-82 | The test as written accepts only pairs the corrected test accepts. The only pairs it misses are files of the root folder `.` requested without a folder. |
| BsaReader.FirstMatchAsWritten | src/archive/reader.rs:64-82 | The first pair the search as written accepts, or none. |
| BsaReader.RootFileNotFoundAsWritten | src/archive/reader.rs:25-82 | As written, a file in the root folder `.` is listed as `a.txt`, but extracting `a.txt` finds nothing. |
| BsaReader.Decoded | src/archive/reader.rs:135-139 | Stored data passes through unchanged when it is not compressed. |
| BsaReader.ExtractFilesBatch | src/archive/reader.rs:110-153 | The batch outcome of the pairs whose lower-cased full path is wanted, decoded and delivered under their original full paths. |
| BsaReader.CollectEntries | src/archive/reader.rs:111-128 | The nested loop over folders and files yields `Entries`. |
| Ba2Reader.ListFiles | src/archive/ba2_reader.rs:29-33 | One path per key, in archive order, verbatim. |
| Ba2Reader.Ba2Matches | src/archive/ba2_reader.rs:48-59 | The four-way test holds exactly when key and request are equal after folding case and separators. |
| Ba2Reader.ExtractFile | src/archive/ba2_reader.rs:48-73 | The data of the first key that matches, or a decode error for it. Not found exactly when no key matches. |
| Ba2Reader.Ba2LookupIsCanonical | src/archive/ba2_reader.rs:94-101 | The batch key is the folded form of the name. |
| Ba2Reader.ExtractFilesBatch | src/archive/ba2_reader.rs:94-124 | The batch outcome of the keys whose folded name is wanted, delivered under their original names. |
| Ba2Writer.ToCrateVersion | src/archive/ba2_writer.rs:38-46 | The crate version is one of 1, 2, 3, 7 or 8. |
| Ba2Writer.ToCrateVersionInjective | src/archive/ba2_writer.rs:38-46 | Distinct versions map to distinct crate versions. |
| Ba2Writer.BaseName | src/archive/ba2_writer.rs:102 | The result ends the name and has no `/` or `\`. It is the whole name, or the character just before it is a separator, so it is the text after the last separator. |
| Ba2Writer.TextureNameMentionsTextures | src/archive/ba2_writer.rs:102-109 | A name taken for a texture archive always has "textures" in its base name. |
| Ba2Writer.TextureNameIgnoresCase | src/archive/ba2_writer.rs:99-109 | The texture heuristic ignores case. |
| Ba2Writer.Ba2Key | src/archive/ba2_writer.rs:155-158 | The key has no `\` and does not start with `/`. |
| Ba2Writer.Ba2KeyIdempotent | src/archive/ba2_writer.rs:155-158 | Normalising twice is normalising once. |
| Ba2Writer.Ba2KeySeparatorInsensitive | src/archive/ba2_writer.rs:155-158 | A leading separator, or `/` written as `\`, leads to the same key. |
| Ba2Writer.GeneralChunk | src/archive/ba2_writer.rs:208-219 | A chunk is compressed exactly when compression is on and the codec succeeds. Otherwise the uncompressed data is kept. |
| Ba2Writer.Ba2Builder.constructor | src/archive/ba2_writer.rs:86-94 | No files, General, zlib, strings on, version V7. |
| Ba2Writer.Ba2Builder.FromName | src/archive/ba2_writer.rs:98-127 | DX10 exactly when the name passes the texture heuristic on its lower-cased base name, General otherwise. No files, zlib, strings on, version V7. |
| Ba2Writer.Ba2Builder.WithVersion | src/archive/ba2_writer.rs:130-134 | Sets only the version. |
| Ba2Writer.Ba2Builder.WithFormat | src/archive/ba2_writer.rs:136-140 | Sets only the format. |
| Ba2Writer.Ba2Builder.WithCompression | src/archive/ba2_writer.rs:142-147 | Sets only the compression. |
| Ba2Writer.Ba2Builder.WithStrings | src/archive/ba2_writer.rs:149-153 | Sets only the strings flag. |
| Ba2Writer.Ba2Builder.AddFile | src/archive/ba2_writer.rs:155-160 | The payload is stored under the normalised key, replacing any earlier one. The count grows only for a new key. |
| Ba2Writer.Ba2Builder.IsEmpty | src/archive/ba2_writer.rs:163-170 | Empty exactly when the file count is 0. |
| Ba2Writer.Ba2Builder.BuildWithProgress | src/archive/ba2_writer.rs:173-262 | No files gives the empty-archive error. A General archive always builds, with every key's chunk from `GeneralChunk`. A DX10 archive builds exactly when every payload parses as DDS, and otherwise reports a file that does not. Version and strings are passed through. A General archive sets no container compression format, and a DX10 archive always uses Zip. |
| Ba2Writer.Ba2Builder.BuildDx10 | src/archive/ba2_writer.rs:264-330 | Succeeds exactly when every payload parses, with one texture per key. Otherwise it reports a failing key. The options are the version, the strings flag, DX10 and Zip, whatever the builder's compression. |
| BsaWriter.Put | src/archive/writer.rs:129-132 | The file is stored under (folder, name), every other pair is unchanged, and the folder is created when missing. |
| BsaWriter.SplitKey | src/archive/writer.rs:116-127 | The path normalised (`\` to `/`, leading `/` stripped) is folder, `/` and file name. With no `/`, the folder is `.` and the whole path is the file name. The file name has no `/`. |
| BsaWriter.SumSizesPut | src/archive/writer.rs:129-138 | Storing a pair adds one to the file count exactly when the pair is new. |
| BsaWriter.PutLastWriteWins | src/archive/writer.rs:129-138 | Filing two payloads under the same pair is the same as filing only the second one. The file count grows by one exactly when the pair was new. |
| BsaWriter.Encoded | src/archive/writer.rs:27-43 | Uncompressed storage when compression is off. When it is on, the result exists exactly when the codec succeeds, and it is marked compressed. |
| BsaWriter.EncodedRoundTrip | src/archive/writer.rs:27-43 | If the codec's decompression inverts its compression, reading an encoded entry gives back the payload. |
| BsaWriter.BsaBuilder.constructor | src/archive/writer.rs:56-65 | FO3 default flags, no types, v104, no files. |
| BsaWriter.BsaBuilder.FromName | src/archive/writer.rs:67-84 | The version and types detected from the name, with Oblivion flags exactly for v103. Compression is therefore on exactly when the version is not v103. |
| BsaWriter.BsaBuilder.WithFlags | src/archive/writer.rs:86-91 | Sets only the flags. |
| BsaWriter.BsaBuilder.WithTypes | src/archive/writer.rs:93-97 | Sets only the types. |
| BsaWriter.BsaBuilder.WithVersion | src/archive/writer.rs:99-103 | Sets only the version. |
| BsaWriter.BsaBuilder.WithCompression | src/archive/writer.rs:105-112 | The compressed flag is set exactly when asked for, and every other flag is kept. |
| BsaWriter.BsaBuilder.AddFile | src/archive/writer.rs:115-133 | The payload is stored under the split key, replacing any earlier one, and every other pair is unchanged. |
| BsaWriter.BsaBuilder.FileCount | src/archive/writer.rs:136-138 | The sum of the per-folder file counts. |
| BsaWriter.BsaBuilder.IsEmpty | src/archive/writer.rs:141-143 | Empty exactly when the file count is 0. On a valid builder, that means no folders. |
| BsaWriter.BsaBuilder.BuildWithProgress | src/archive/writer.rs:146-249 | No files gives the empty-archive error. Otherwise each pair is encoded with compression exactly when the flags say so, and the output has every pair under its folder with the same count. Version, flags and types are passed through. Without compression it always succeeds. A failure names a pair whose encoding failed. |
| BsaWriter.BsaBuilder.Flatten | src/archive/writer.rs:175-185 | Every (folder, file) pair of the map once, and as many entries as the file count. |
| BsaWriter.FlattenFolder | src/archive/writer.rs:178-183 | Every file of one folder once. |
| BsaWriter.Regroup | src/archive/writer.rs:210-225 | Regrouping distinct processed entries gives a map holding exactly those pairs, with the file count equal to the number of entries. |
| BsaWriter.ProcessedMatches | src/archive/writer.rs:175-225 | After flattening, encoding and regrouping, each (folder, file) holds the encoding of the original payload, and nothing else is present. |

## Left out

- Text.Lower: ASCII lower-casing only. The source mixes Unicode `to_lowercase` with `eq_ignore_ascii_case`, so names with non-ASCII letters may compare differently in the source.
- Rust string slicing is on UTF-8 bytes. The model's strings are sequences of characters, so multi-byte characters are not modelled.
- The `ba2` crate is not part of this model: `Archive::read`/`write`, `guess_format`, `compress`/`decompress` and DDS parsing. They appear as opaque parameters (`Option`-valued functions or already-opened archive values). File system access (opening, creating directories, writing) is left out with them.
- `ArchiveFlags` and `ArchiveTypes` are bit sets in the crate. The model uses finite sets of enum values.
- Parallelism: `par_iter`, `try_for_each` and the atomic counters are modelled as a sequential pass. Batch.Deliver promises only that some failing entry's error is reported, because the parallel source does not fix which one.
- The cancel flag (`reset_cancel`, `AtomicBool`) and progress callbacks with their float ratios are left out. They do not affect results.
- Output order of the built archives is left out. Both builders collect a `HashMap` without sorting, so the outputs are maps.
- The order in which `HashSet` yields folders is a ghost parameter of TreeBuild.GroupChildren. Siblings with equal kind and lower-cased name are left in an unspecified relative order: the sort is proved ordered and a permutation, not stable.
- TreeBuild.CollectFolders uses the corrected folder set (see Findings). It does not model the endless recursion the source enters when a path starts with a separator.
- `load_archive` and `load_folder` (src/gui/state.rs:70-113) are I/O: opening and walking directories. Their tree building is modelled through BuildTreeFromPaths.
- `to_slint_model`, the `setup_*` callbacks, `pack_files`, src/gui/mod.rs and src/main.rs are UI, threads and CLI dispatch, and are not part of this model.
- Archive.GameVersion.DisplayName is a table of labels with no property beyond its text, so it carries no contract. `Default` implementations are the constants DefaultGameVersion and DefaultBa2Version.
- Ba2Writer.Ba2Builder.FileCount is the map's size, with no contract of its own. Its property (the number of distinct keys) is stated by AddFile and IsEmpty.
- SelectionTree.TriStateAt exempts nodes without children from the aggregate rule and only requires them not to be partial. The source never recounts a childless node, so its `selected` flag need not equal the aggregate over zero children, which is true. Example: build from no paths, then `select_none`; the root has no children and `selected == false`. Every row that says the tri-state rule holds means this rule, with the exemption.
- Search.MatchesSearch, SelectionTree.NodeOrDescendantsMatch, SelectionTree.IsVisible and BsaReader.ExtractFile use the corrected behaviour of the Findings rows (`Search.Matches`, `BsaReader.Matches`), not the code as written. So visibility does not capture that, as written, the filter `*s` hides `meshes`, and single-file BSA extraction does not capture that a root-folder file requested by its listed name is not found. The as-written tests are Search.MatchesAsWritten and BsaReader.MatchesAsWritten, and the lemmas beside them show where the two differ.
- Ba2Writer.Ba2Builder.BuildWithProgress: the builder's compression setting only switches compression on or off. Zlib and Lz4 never reach the codec. General chunks are compressed with the codec's default chunk options (src/archive/ba2_writer.rs:212), and DX10 textures and the DX10 container use Zip (src/archive/ba2_writer.rs:276, 306). So the Lz4 that the Starfield profiles choose gives the same archive as zlib. The model keeps this: GeneralChunk and BuildDx10 depend only on whether compression is on. What the codec's default chunk options are is not part of this model.
- BsaReader.Decoded: how the crate decompresses data (with the archive's version options) is an opaque parameter. Only the uncompressed pass-through is stated.
- SelectionTree.SelectedFiles: the contract states membership in both directions. It does not state the index order, which the recursive definition keeps.
- GuiState.AppState.BuildTreeFromPaths proves the node counts as multisets of (name, path, kind) labels. It does not say which index holds which node beyond the ordering of siblings.

## Findings

| source | as written | input that shows it | evidently intended | confidence | as-written member | corrected member |
|---|---|---|---|---|---|---|
| src/gui/state.rs:297-316 | For a pattern without a trailing `*`, the last piece is searched leftmost after the previous ones, and the match then fails unless that leftmost hit ends the text. | filter `*s`, path `meshes`: the leftmost `s` is at index 2 and ends at 3, not at 6, so the node is rejected, though `meshes` ends in `s`. | The last piece must end the text: `*s` matches every path ending in `s`. | not executed; high | Search.AsWrittenMissesSuffix | Search.MatchesIsGlob |
| src/gui/state.rs:120-128 | Every separator position gives a folder prefix, including one at position 0 for a path with a leading `/` or `\`. | paths `["/a"]`: the folder set contains `""`. Its entry is listed under parent path `""`, so `build_tree_dfs` on `""` meets it and recurses on `""` without end. | Folder prefixes are non-empty, and the walk always moves to a longer path. | not executed; medium | TreeBuild.LeadingSeparatorAsWritten | TreeBuild.FolderPrefixesJoined |
| src/archive/reader.rs:25-82 | `list_files` prints a file of the root folder `.` as its bare name. `extract_file` splits a request without `\` into folder `""`, which does not equal `.` ignoring case. | one folder `.` holding `a.txt`: `list_files` gives `a.txt`, and `extract_file("a.txt")` reports not-found. | Every listed path can be extracted: a request without a folder also finds files of folder `.`. | not executed; medium | BsaReader.RootFileNotFoundAsWritten | BsaReader.ListedPathIsFound |
