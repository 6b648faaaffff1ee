# rootsense in Dafny

rootsense writes one header that `#include`s every usable header of a ROOT
installation. This project models its two parts that carry logic and proves
what they promise.

1. **The name-keyed file index.** This is an unbalanced binary search tree of
   `_RSItem` records (file name, path and a `seen` mark). Items compare by file
   name alone. The repository has four drafts of it:
   - `RSNode` in rootsense_utils.py;
   - `RSTree` in Brazil/rootsense_classes.py;
   - `RSTree` in rootsense_classes.py;
   - the earliest `RSTree` in RSTree.py.

   The three later drafts keep names unique, and re-inserting a name replaces
   the stored item. The earliest draft keeps duplicates on the left. Each draft
   is a Dafny `class` whose methods update the nodes in place. A ghost `Model`
   (a `NameTree.Tree` or, for the earliest draft, a tree with duplicates) is
   tied to the nodes by `Valid()`. Every method is proved against a pure
   function on `Model`, and the functions are proved against the dictionary the
   tree stands for (`NameTree.Contents`, last write wins) and its key set.

2. **The dependency bookkeeping of rootsense.py.** This part has three pieces:
   - `Library`: three collections with membership, `|` and `|=`;
   - the `#include` directive scan;
   - the one-level check `dependencies_satisfied`, which skips known
     includes, looks each other include up in the ROOT tree first and the
     system paths second, and stops at the first include found in neither.

Modules, one per file:

| file | module | models |
|---|---|---|
| names.dfy | `Names` | Python's `str` order, proved a strict total order |
| items.dfy | `Items` | `_RSItem`, its comparisons, `_RSItem(*args)`, the exceptions |
| name_tree.dfy | `NameTree` | the tree of the three later drafts as a value: insert, membership, lookup, union, fold, size, depth, `seen` |
| file_filter.dfy | `FileFilter` | `Path.suffix` and the extension and ASCII filters of the directory walks |
| dup_tree.dfy | `DupTree` | the earliest draft as a value: insert with duplicates, in-order listing, its `__contains__` |
| rstree.dfy | `EarlyRSTree` | RSTree.py's `RSTree` class |
| rootsense_utils.dfy | `RootsenseUtils` | rootsense_utils.py's `RSNode` class |
| brazil_classes.dfy | `BrazilClasses` | Brazil/rootsense_classes.py's `RSTree` class |
| rootsense_classes.dfy | `RootsenseClasses` | rootsense_classes.py's `RSTree` class, including its level-by-level `insert_path` over a directory snapshot |
| rootsense.dfy | `Rootsense` | `Library`, `Dependency`, the include scan and `dependencies_satisfied` |

Three facts about the code shape the model:
- `dependencies_satisfied` checks a header's includes one level deep. It does
  not follow the includes of the files it finds.
- The include scan extracts both `<...>` and `"..."` targets, and keeps any
  whitespace inside a target.
- Items carry only the `seen` mark, which is set and read but drives nothing.

## Model

| member | source | states |
|---|---|---|
| Names.LessIrreflexive | rootsense_utils.py:103-104 | no file name is `<` itself |
| Names.LessAsymmetric | rootsense_utils.py:103-108 | `a < b` excludes `b < a` |
| Names.LessTransitive | rootsense_utils.py:103-104 | `<` on names is transitive |
| Names.LessTotal | rootsense_utils.py:103-110 | any two names are equal or ordered one way |
| Names.Trichotomy | rootsense_utils.py:103-110 | exactly one of `a == b`, `a < b`, `b < a` holds |
| Items.ItemOfArgs | Brazil/rootsense_classes.py:89-91 | `_RSItem(*args)` succeeds iff there are one to three arguments, and the first is the file name |
| Items.NamePathList | Brazil/rootsense_classes.py:84-91 | a `[name, path]` list becomes the item with that name and path, not seen |
| Items.ItemOrder | rootsense_utils.py:101-112 | the six comparisons depend only on the file name and are consistent with each other (trichotomy, `<=` is `<` or `==`, `!=` is not `==`) |
| NameTree.Insert | rootsense_utils.py:169-185 | the key set after an insert is the old key set plus the new name |
| NameTree.InsertOrdered | rootsense_utils.py:169-185 | insert keeps the BST ordering (smaller names left, larger right, no duplicates) |
| NameTree.InsertContents | rootsense_utils.py:169-185 | the dictionary after an insert is the old one with the name mapped to the new item: last write wins |
| NameTree.InsertAll | rootsense_classes.py:172-182 | inserting a sequence adds exactly the names of the sequence |
| NameTree.InsertAllAppend | rootsense_classes.py:172-182 | inserting `xs + ys` is inserting `xs`, then `ys` |
| NameTree.InsertAllContents | rootsense_classes.py:172-182 | inserting a sequence keeps the ordering and overrides the dictionary with the sequence's last item per name |
| NameTree.SizeIsKeyCount | rootsense_utils.py:373-382 | in an ordered tree `size` is the number of distinct names |
| NameTree.InsertSize | rootsense_utils.py:174-175 | an insert grows `size` by one for a new name and leaves it unchanged for a present one |
| NameTree.DepthBounds | rootsense_classes.py:213-227 | `size` and `depth` are 0 exactly on the empty tree, and `depth <= size` |
| NameTree.Member | rootsense_utils.py:272-297 | the search only answers true for a stored name |
| NameTree.MemberCorrect | rootsense_utils.py:272-297 | in an ordered tree the search answers true iff the name is stored (false on an empty tree) |
| NameTree.Lookup | rootsense_utils.py:299-322 | the lookup succeeds iff the search does, and then returns an item with that name; otherwise `KeyError` for that name |
| NameTree.LookupCorrect | rootsense_utils.py:299-322 | in an ordered tree `tree[name]` is the stored item, and `KeyError` iff the name is absent |
| NameTree.Union | rootsense_utils.py:324-345 | the union's key set is the union of the key sets |
| NameTree.UnionContents | rootsense_utils.py:324-345 | the union is ordered, and its dictionary is the first's overridden by the second's (the argument wins on a shared name) |
| NameTree.UnionAll | rootsense_utils.py:347-358 | folding union over trees gives the union of all key sets |
| NameTree.UnionAllContents | rootsense_utils.py:347-358 | the fold is ordered, and its dictionary is each tree's overriding the ones before (later trees win) |
| NameTree.MarkSeen | rootsense_utils.py:401-402 | marking keeps the key set, the size and the depth |
| NameTree.MarkSeenOrdered | rootsense_utils.py:401-402 | marking keeps the ordering |
| NameTree.MarkSeenContents | rootsense_utils.py:401-402 | marking a stored name sets that entry's `seen` and changes no other entry |
| NameTree.MarkThenLookup | rootsense_utils.py:395-402 | after `mark_as_seen(n)`, `n` reads as seen and every other name reads as before |
| FileFilter.RFind | rootsense_utils.py:224-226 | the index of the last occurrence of a character, or -1 when there is none |
| FileFilter.SuffixShape | rootsense_utils.py:224-226 | `Path.suffix` is empty or a dot followed by at least one non-dot character, ending the name and not the whole name |
| FileFilter.SuffixOfJoin | rootsense_utils.py:224-226 | `stem.ext` has suffix `.ext` when `ext` has no dot |
| FileFilter.NoDotNoSuffix | rootsense_utils.py:224-226 | a name without a dot has no suffix |
| FileFilter.SubstringIsSlice | rootsense_utils.py:224 | Python's `x in s` on strings holds iff `x` is a slice of `s` |
| FileFilter.EmptyInText | Brazil/rootsense_classes.py:240 | `'' in text` holds for every string `ext` |
| FileFilter.DefaultFilters | rootsense_utils.py:224-227 | with the default `['.h', '.hh', '']` the filters of the drafts agree: a header, or an extensionless file that passes the ASCII test when that test is on |
| FileFilter.Wildcards | Brazil/rootsense_classes.py:240-243 | `['*']` (rootsense_utils.py) and `'*'` (later drafts) admit every file except an extensionless non-ASCII one under the ASCII test |
| FileFilter.TextExt | rootsense_classes.py:175 | a string `ext` matches by substring, so every extensionless file passes when the ASCII test is off |
| DupTree.InsertDup | RSTree.py:40-54 | an insert always yields a non-empty tree |
| DupTree.InsertDupElems | RSTree.py:23-54 | an insert adds exactly the new item; nothing stored is removed or altered |
| DupTree.InsertDupNames | RSTree.py:45-54 | an insert adds the new name to the stored names |
| DupTree.InsertDupSize | RSTree.py:45-54 | every insert grows the node count by one, duplicates included |
| DupTree.SizeIsElemCount | RSTree.py:45-54 | the node count is the number of stored items, with repetitions |
| DupTree.InsertDupOrdered | RSTree.py:45-54 | inserts keep left names `<=` the node's and right names `>` |
| DupTree.InOrder | RSTree.py:73-78 | the in-order listing has one entry per node |
| DupTree.InOrderElems | RSTree.py:73-78 | the listing holds exactly the stored items |
| DupTree.InOrderNames | RSTree.py:73-78 | every name in the listing is a stored name |
| DupTree.InOrderSorted | RSTree.py:73-78 | in an ordered tree the `printout` order is non-decreasing by name |
| DupTree.ContainsAsWrittenOutcome | RSTree.py:56-71 | as written, `__contains__` answers true iff the name is stored, false iff the tree is empty, and raises `TypeError` for every absent name in a non-empty tree |
| DupTree.AbsentNameRaises | RSTree.py:68-71 | a one-item tree `b.h` searched for `a.h` raises `TypeError` |
| DupTree.ContainsCorrect | RSTree.py:56-71 | the intended search answers true iff the name is stored, and agrees with the written one whenever that one answers |
| EarlyRSTree.Chars | RSTree.py:57-58 | a string unpacks into its characters |
| EarlyRSTree.TextKeyAsWritten | RSTree.py:57-58 | a string key of one to three characters is searched for as its first character; any other string key raises `TypeError` |
| EarlyRSTree.HeaderNameKeyRaises | RSTree.py:57-58 | `"foo.h" in tree` raises `TypeError` as written |
| EarlyRSTree.KeyItemIntended | RSTree.py:57-58 | as intended, a string key is the file name, and other keys unpack as written |
| EarlyRSTree.RSTree.constructor | RSTree.py:18-21 | a new tree is empty |
| EarlyRSTree.RSTree.Insert | RSTree.py:23-54 | the nodes follow `DupTree.InsertDup`: an empty node takes the item, `<=` goes left, the rest right |
| EarlyRSTree.RSTree.InsertLeft | RSTree.py:46-50 | the `<=` branch, creating the left child when missing |
| EarlyRSTree.RSTree.InsertRight | RSTree.py:51-54 | the `>` branch, creating the right child when missing |
| EarlyRSTree.RSTree.Search | RSTree.py:60-71 | the search of the nodes is `ContainsAsWritten`: true iff stored, `TypeError` iff absent from a non-empty tree |
| EarlyRSTree.RSTree.Contains | RSTree.py:56-71 | `key in tree`: a key that does not unpack raises `TypeError`, any other is searched as written |
| EarlyRSTree.RSTree.Find | RSTree.py:60-71 | the intended search of the nodes answers true iff the name is stored |
| EarlyRSTree.RSTree.ContainsIntended | RSTree.py:56-71 | as intended, a string or item key answers whether its name is stored; a list key fails iff it does not unpack, and otherwise answers whether its first element is a stored name |
| RootsenseUtils.RSNode.constructor | rootsense_utils.py:147-150 | a new tree is empty |
| RootsenseUtils.RSNode.Insert | rootsense_utils.py:152-185 | the nodes follow `NameTree.Insert` and stay a valid tree |
| RootsenseUtils.RSNode.InsertLeft | rootsense_utils.py:177-181 | the smaller-name branch, creating the left child when missing |
| RootsenseUtils.RSNode.InsertRight | rootsense_utils.py:182-185 | the larger-name branch, creating the right child when missing |
| RootsenseUtils.RSNode.AddLeft | rootsense_utils.py:179-180 | a fresh empty left child changes nothing the tree stands for |
| RootsenseUtils.RSNode.AddRight | rootsense_utils.py:183-184 | a fresh empty right child changes nothing the tree stands for |
| RootsenseUtils.RSNode.Contains | rootsense_utils.py:272-297 | `name in tree` iff the name is stored |
| RootsenseUtils.RSNode.Get | rootsense_utils.py:299-322 | `tree[name]` is the stored item, and `KeyError` iff absent |
| RootsenseUtils.RSNode.Or | rootsense_utils.py:324-345 | `a \| b` returns `a`, now the union with `b`'s items winning; a non-tree raises `TypeError` and changes nothing |
| RootsenseUtils.RSNode.Merge | rootsense_utils.py:347-358 | `merge(t1..tn)` is a fresh tree folding `\|` over the arguments; `TypeError` iff some argument is not a tree |
| RootsenseUtils.RSNode.MergeContents | rootsense_utils.py:347-358 | the merged tree is ordered and its dictionary is the arguments' with later ones winning |
| RootsenseUtils.RSNode.ModelsOf | rootsense_utils.py:355-356 | the argument trees stand for their models in order |
| RootsenseUtils.RSNode.ModelsOrdered | rootsense_utils.py:355-356 | every valid argument tree is ordered |
| RootsenseUtils.RSNode.Size | rootsense_utils.py:373-382 | `size()` is the number of distinct stored names |
| RootsenseUtils.RSNode.Depth | rootsense_utils.py:384-393 | `depth()` is 0 iff the tree is empty, and at most the number of names |
| RootsenseUtils.RSNode.GetSeenStatus | rootsense_utils.py:395-399 | the stored item's `seen`, and `KeyError` iff the name is absent |
| RootsenseUtils.RSNode.MarkAsSeen | rootsense_utils.py:401-402 | marks exactly that entry seen, and raises `KeyError` and changes nothing for an absent name |
| RootsenseUtils.RSNode.MarkFound | rootsense_utils.py:401-402 | marking a stored name follows `NameTree.MarkSeen` |
| RootsenseUtils.RSNode.MarkLeft | rootsense_utils.py:319-320 | the descent into the left child of `tree[name]` when marking |
| RootsenseUtils.RSNode.MarkRight | rootsense_utils.py:321-322 | the descent into the right child of `tree[name]` when marking |
| BrazilClasses.RSTree.constructor | Brazil/rootsense_classes.py:73-76 | a new tree is empty |
| BrazilClasses.RSTree.Insert | Brazil/rootsense_classes.py:95-112 | the nodes follow `NameTree.Insert`: an equal name replaces, a smaller goes left, a larger right |
| BrazilClasses.RSTree.InsertLeft | Brazil/rootsense_classes.py:104-108 | the smaller-name branch, creating the left child when missing |
| BrazilClasses.RSTree.InsertRight | Brazil/rootsense_classes.py:109-112 | the larger-name branch, creating the right child when missing |
| BrazilClasses.RSTree.AddLeft | Brazil/rootsense_classes.py:106-107 | a fresh empty left child changes nothing the tree stands for |
| BrazilClasses.RSTree.AddRight | Brazil/rootsense_classes.py:110-111 | a fresh empty right child changes nothing the tree stands for |
| BrazilClasses.RSTree.InsertArgs | Brazil/rootsense_classes.py:88-98 | `insert([name, path, ...])` inserts `_RSItem(*list)`, and raises `TypeError` without change iff the list does not have one to three strings |
| BrazilClasses.RSTree.Contains | Brazil/rootsense_classes.py:137-172 | `name in tree` iff the name is stored; false on an empty tree or a missing child |
| BrazilClasses.RSTree.Get | Brazil/rootsense_classes.py:114-135 | `tree[name]` is the stored item, and `KeyError` iff absent |
| BrazilClasses.RSTree.Or | Brazil/rootsense_classes.py:174-191 | `a \|= b` makes `a` the union with `b`'s items winning; a non-tree raises `TypeError` and changes nothing |
| BrazilClasses.RSTree.ModelsOf | Brazil/rootsense_classes.py:283-284 | the argument trees stand for their models in order |
| BrazilClasses.RSTree.ModelsOrdered | Brazil/rootsense_classes.py:283-284 | every valid argument tree is ordered |
| BrazilClasses.RSTree.Merge | Brazil/rootsense_classes.py:193-195 | as written, `merge(*others)` hands the argument tuple to `\|=` and always raises `TypeError`, whatever the arguments |
| BrazilClasses.RSTree.MergeIntended | Brazil/rootsense_classes.py:196-198 | as intended, each argument is merged in turn: the union of all, later trees winning; `TypeError` iff some argument is not a tree, and then the arguments before the first non-tree stay merged |
| BrazilClasses.RSTree.OrBefore | Brazil/rootsense_classes.py:197-198 | one step of the intended merge: `self \|= others[i]` extends the union of the arguments so far by that tree, raises `TypeError` iff it is not a tree, and leaves the arguments after it intact |
| BrazilClasses.RSTree.FromTreeList | Brazil/rootsense_classes.py:281-286 | `from_tree_list(ts)` is a fresh tree folding `\|=` over `ts`; `TypeError` iff some element is not a tree |
| BrazilClasses.RSTree.FromTreeListContents | Brazil/rootsense_classes.py:281-286 | the result is ordered and its dictionary is the trees' with later ones winning, so its keys are the union of theirs |
| BrazilClasses.RSTree.Size | Brazil/rootsense_classes.py:288-294 | `size()` is the number of distinct stored names |
| BrazilClasses.RSTree.Depth | Brazil/rootsense_classes.py:296-302 | `depth()` is 0 iff the tree is empty, and at most the number of names |
| BrazilClasses.RSTree.HasBeenSeen | Brazil/rootsense_classes.py:304-305 | true iff the name is stored and its item is seen; false, not an error, for an absent name |
| BrazilClasses.RSTree.MarkAsSeen | Brazil/rootsense_classes.py:307-308 | marks exactly that entry seen, and raises `KeyError` and changes nothing for an absent name |
| BrazilClasses.RSTree.MarkFound | Brazil/rootsense_classes.py:307-308 | marking a stored name follows `NameTree.MarkSeen` |
| BrazilClasses.RSTree.MarkLeft | Brazil/rootsense_classes.py:132-133 | the descent into the left child of `tree[name]` when marking |
| BrazilClasses.RSTree.MarkRight | Brazil/rootsense_classes.py:134-135 | the descent into the right child of `tree[name]` when marking |
| RootsenseClasses.FilesSound | rootsense_classes.py:166-168 | every entry put in `files` is a file of the listing |
| RootsenseClasses.SubDirsSound | rootsense_classes.py:169-170 | every entry put in `subdirs` is a subdirectory of the listing |
| RootsenseClasses.FilesComplete | rootsense_classes.py:166-168 | every file of the listing is put in `files` |
| RootsenseClasses.SubDirsComplete | rootsense_classes.py:169-170 | every subdirectory of the listing is put in `subdirs` |
| RootsenseClasses.AdmittedStep | rootsense_classes.py:173-179 | one more file adds its item exactly when the filter admits it |
| RootsenseClasses.AdmittedMember | rootsense_classes.py:173-179 | the items inserted from `files` are exactly those of the admitted files |
| RootsenseClasses.ConcatStep | rootsense_classes.py:181-182 | the subdirectory walks add up in order |
| RootsenseClasses.ConcatMember | rootsense_classes.py:181-182 | an item of the walks comes from some subdirectory's walk |
| RootsenseClasses.WalksOf | rootsense_classes.py:181-182 | the `j`-th walk is the walk of the `j`-th subdirectory |
| RootsenseClasses.PathItemsExact | rootsense_classes.py:144-182 | `insert_path(d)` inserts exactly the admitted files found anywhere under `d` |
| RootsenseClasses.InsertPathContents | rootsense_classes.py:144-182 | after `insert_path(d)` the tree is ordered, each name maps to the last file of that name met (files before subdirectories), and a name is stored iff it was before or is an admitted file under `d` |
| RootsenseClasses.RSTree.constructor | rootsense_classes.py:41-44 | a new tree is empty |
| RootsenseClasses.RSTree.Insert | rootsense_classes.py:63-80 | the nodes follow `NameTree.Insert`: an equal name overwrites in place, a smaller goes left, any other right |
| RootsenseClasses.RSTree.InsertLeft | rootsense_classes.py:72-76 | the smaller-name branch, creating the left child when missing |
| RootsenseClasses.RSTree.InsertRight | rootsense_classes.py:77-80 | the larger-name branch, creating the right child when missing |
| RootsenseClasses.RSTree.AddLeft | rootsense_classes.py:74-75 | a fresh empty left child changes nothing the tree stands for |
| RootsenseClasses.RSTree.AddRight | rootsense_classes.py:78-79 | a fresh empty right child changes nothing the tree stands for |
| RootsenseClasses.RSTree.Contains | rootsense_classes.py:100-135 | `name in tree` iff the name is stored; false on an empty tree |
| RootsenseClasses.RSTree.Get | rootsense_classes.py:82-98 | `tree[key]` is the stored item for that name, and `KeyError` iff absent |
| RootsenseClasses.RSTree.InsertPath | rootsense_classes.py:144-182 | `insert_path(d)` inserts, in order, the admitted files of `d` and then the walks of its subdirectories |
| RootsenseClasses.RSTree.SortListing | rootsense_classes.py:160-170 | the listing loop splits the entries into files and subdirectories, each in listing order |
| RootsenseClasses.RSTree.InsertFiles | rootsense_classes.py:172-179 | the file loop inserts exactly the admitted files, in order |
| RootsenseClasses.RSTree.InsertSubdirs | rootsense_classes.py:180-182 | the subdirectory loop inserts each subdirectory's walk, in order |
| RootsenseClasses.RSTree.Size | rootsense_classes.py:213-219 | `size()` is the number of distinct stored names; a duplicate insert leaves it unchanged |
| RootsenseClasses.RSTree.Depth | rootsense_classes.py:221-227 | `depth()` is 0 iff the tree is empty, and at most `size()` |
| Rootsense.Union | rootsense.py:47-53 | `a \| b` on values: key sets unite, `b`'s entry wins on a shared key, `a`'s stays elsewhere, missing sets unite |
| Rootsense.UnionMembers | rootsense.py:40-53 | `x in a \| b` iff `x in a` or `x in b` |
| Rootsense.Library.constructor | rootsense.py:34-38 | a library holds the three collections it is given |
| Rootsense.Library.Contains | rootsense.py:40-45 | `x in library` iff `x` is a key of either dictionary or a missing file |
| Rootsense.Library.Or | rootsense.py:47-55 | `a \| b` is a new library holding the union and changes neither operand; a non-library gives `NotImplemented` |
| Rootsense.Library.OrAssign | rootsense.py:57-65 | `a \|= b` leaves `a` equal to what `a \| b` builds and returns `a`; a non-library gives `NotImplemented` and changes nothing |
| Rootsense.StripStart | rootsense.py:120 | leading whitespace removed: a suffix of the line not starting with whitespace |
| Rootsense.StripStartSpaces | rootsense.py:120 | only whitespace is removed from the start |
| Rootsense.StripEnd | rootsense.py:120 | trailing whitespace removed: a prefix of the line not ending with whitespace |
| Rootsense.StripEndSpaces | rootsense.py:120 | only whitespace is removed from the end |
| Rootsense.StripShape | rootsense.py:120 | `line.strip()` is the slice left once the whitespace around it is cut off, and neither starts nor ends with whitespace |
| Rootsense.Find | rootsense.py:125 | the index found holds the character, and lies inside the line iff the character occurs |
| Rootsense.FindFirst | rootsense.py:125 | no earlier index holds the character |
| Rootsense.BetweenShape | rootsense.py:125-130 | the text after the first opening character, cut at the first closing character after it or at the end, holds no closing character |
| Rootsense.LineIncludes | rootsense.py:118-131 | a line contributes at most two includes |
| Rootsense.LineIncludesShape | rootsense.py:118-131 | a line contributes iff, stripped, it starts with `#include` and holds `<` and `>`, or `"`; both forms iff it holds all three; the angle form comes first and the quoted one last |
| Rootsense.GatherAppend | rootsense.py:118-133 | the includes of two runs of lines are those of the first followed by those of the second: line order is kept |
| Rootsense.GatherFromLines | rootsense.py:118-133 | an include is found iff some line contributes it |
| Rootsense.ExtractIncludes | rootsense.py:114-131 | the scan loop gathers every line's includes, in line order |
| Rootsense.FirstLost | rootsense.py:136-169 | the first include the check finds nowhere: none before it is lost, and it is lost |
| Rootsense.CheckLost | rootsense.py:165-169 | whatever was found before, the first lost include ends the check, reporting only that include, with empty dictionaries |
| Rootsense.CheckFound | rootsense.py:143-164 | with no lost include, each include looked for is recorded under the first search that finds it, with the directory it gave |
| Rootsense.SatisfiedLost | rootsense.py:165-169 | the result is falsy iff some include is lost, and then it is exactly `missing = {first lost}` with empty dictionaries |
| Rootsense.LaterNotExamined | rootsense.py:165-169 | includes after the first lost one do not affect the result |
| Rootsense.FirstLostPrefix | rootsense.py:136-169 | include lists agreeing up to the first lost include share it |
| Rootsense.SatisfiedFound | rootsense.py:143-174 | otherwise the result is truthy with nothing missing; every include looked for is in exactly one dictionary, the ROOT one iff the ROOT search finds it; a known include is in neither |
| Rootsense.KnownNotSearched | rootsense.py:139-141 | a known include is never looked up: searches differing only on known names give the same result |
| Rootsense.DependenciesSatisfied | rootsense.py:99-174 | the loop computes `Satisfied` of the header's includes against the existing library |

## Left out

- Filesystem and process I/O are left out. This covers `rglob`, `glob`, `is_file`, `resolve`, `open`/`readlines`, the `file` and `which` subprocesses (`is_ascii`, `bash_command`), `main`, `argparse`, `write_files` and the `out_lines` counter. Whether a file is ASCII text is a field of a file entry or a parameter (`isAscii`).
- The directory walks of `RSNode.insert_dir`, `RSNode.from_dir`, the Brazil `insert_path` and `from_dir`, and RSTree.py's `insert_path` and `from_root_dir` are left out. For these, only the filter each walk applies is modelled (module `FileFilter`). rootsense_classes.py's `insert_path` is modelled over a directory snapshot (`Dir`). `from_dir` there is a loop of `insert_path` calls and is not modelled separately.
- `ProgressBar`, `timed`, `printout` output and logging are left out. For a non-empty tree, the order `printout` visits is `DupTree.InOrder`. RSTree.py's `printout` has no guard, so on an empty tree it prints one line, `None`, while `InOrder` of the empty tree is empty.
- Keys are strings. A `Path` key, `to_RSItem`/`from_path`, and the `ValueError` for a value that is neither item nor path are not modelled. RSTree.py's `__contains__` keys are modelled as item, list or string, because that is where its behaviour differs.
- Items are values. `|` inserts the other tree's item objects, so the two trees share them and a later `seen` mark shows in both. That sharing is not modelled.
- RootsenseUtils.RSNode.Or: requires the two trees to share no node. `a | a` and merging a tree with one of its own subtrees are not modelled.
- BrazilClasses.RSTree.Or: requires the two trees to share no node, for the same reason.
- BrazilClasses.RSTree.MergeIntended: requires every argument to share no node with the receiving tree.
- Items.ItemOfArgs: a third argument lands in `seen` as a string. The model keeps only its truth value (non-empty).
- Rootsense.Library.Or: `NotImplemented` is returned as `null`. Python's fallback to the right operand's reflected method, and the `TypeError` that follows, are not modelled.
- Rootsense.DependenciesSatisfied: the two `rglob` searches are function parameters that return the trimmed directory of the first match, or nothing. The `str(path).replace(inc_file, '')` trimming is part of what they return. The header's lines are given rather than read. The oracles cannot fail. The real `rglob` raises on an absolute include target such as `/opt/x.h` (`NotImplementedError`) and on an empty one (`ValueError`), which aborts the program; that abort is not modelled.
- `Dependency` is a datatype (the three collections plus `all_good`) rather than a subclass of `Library`. `library |= dependency_check` in `write_files` is not modelled.
- FileFilter.Suffix: follows `PurePath.suffix` as in Python 3.12 and 3.13, where a name ending in a dot (`foo.`) has suffix `''`.
- `str.strip()` whitespace is listed by code point (Python's whitespace). No other Unicode handling is modelled.

## Findings

| source | as written | input that shows it | evidently intended | confidence | as-written member | corrected member |
|---|---|---|---|---|---|---|
| Brazil/rootsense_classes.py:193-195 | `merge(*others)` tests `isinstance(others, list)` on the argument tuple, which is never a list, so it runs `self \|= others` and `__or__` raises `TypeError` (line 178-179) | `t.merge(u)` for any tree `u` | merge each argument in turn, as the `else` branch does | high (not executed) | BrazilClasses.RSTree.Merge | BrazilClasses.RSTree.MergeIntended |
| RSTree.py:68-71 | `__contains__` descends with `item in self._left` / `item in self._right` without checking the child exists; `in None` raises `TypeError` | a tree holding only `b.h`, asked for `a.h` | answer `False` when the child is missing, as the later drafts do | high (not executed) | DupTree.AbsentNameRaises | DupTree.ContainsCorrect |
| RSTree.py:57-58 | a key that is not an item is unpacked as `_RSItem(*item)`, so a string is split into its characters: `_RSItem('f','o','o.h'...)` raises `TypeError` for names over three characters and searches for the first character otherwise | `"foo.h" in tree` | treat a string key as the file name, as the later drafts do | high (not executed) | EarlyRSTree.HeaderNameKeyRaises | EarlyRSTree.RSTree.ContainsIntended |
