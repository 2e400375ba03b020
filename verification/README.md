# Verified model of ATF 0.23 and its Windows layer

The repository carries the C kernel of ATF 0.23 (`contrib/atf-0.23`) and a layer that lets ATF run
as a native Windows program (`contrib/atf-bmk/win`). This project models the parts of both that hold
state or take decisions, in Dafny, and proves what they promise. `dafny verify dfyconfig.toml`
checks all of it.

| component | files | what is modelled |
|---|---|---|
| list, map, dynamic string | `List`, `Bindings`, `Map`, `Dynstr` | heap objects: the doubly linked list with two sentinels and its splice, the insertion-ordered map on it, the growing NUL-terminated buffer |
| words and command lines | `Strings`, `Text`, `Build` | the C and the C++ splitter, `strtok_r`, the compiler command lines |
| paths | `Fs`, `FsPath`, `Libgen` | normal form, append, branch and leaf; `basename` and `dirname` on the character array |
| files read in chunks | `Utils`, `Compare` | `cat_file`, `readline`, the POSIX and the CRLF-tolerant comparison, over every division into reads |
| expectation machine | `TcModel`, `TcVerdict`, `TcRecords`, `TcReasons`, `Tc` | six modes, three counters, the results file; a specification on phases without counters |
| descriptors around fork | `Process`, `Routing` | the descriptor tables of parent and child for all stream pairs and failure points |
| command line | `Getopt`, `GetoptRoundTrip`, `Enter`, `EnterAgrees`, `EnterExact`, `TpParams`, `TpMeaning`, `TpFresh`, `TpMain`, `TpEnter` | `getopt` with its position inside a cluster, the path scanner `atfw_enter`, the options and the configuration of a test program |

How the model is built:

- An object that the source updates in place is a class; its methods are proved against functions of
  the old state (`View`, `StateOn`, `S`, the table), and the theorems are lemmas about those functions.
- A C string is a sequence without NULs; where the source works on the buffer, so does the model
  (`CString` is what a C function sees of it). `None` stands for NULL, -1 or `npos`.
- `read` is an oracle that returns any non-empty part of what is left, or fails. A formatted text is
  an oracle's NUL-free text. `pipe`, `open`, `fork`, `dup2`, `getcwd` and `atf_fs_exists` are
  parameters or free choices with contracts; whether a read or a dup2 may fail is an input. Memory allocation succeeds.
- A test body is any sequence of the calls it can make.
- A call that ends the process returns its exit status.

## Main results

- Splicing two lists is sound in both link directions, and the later walk frees every entry once
  (`AppendList`, `Fini`). The map refines a mathematical map with insertion order (`Insert`, `Find`,
  `InsertRefinesMap`, `CharppRoundTrip`).
- `getopt` is a left inverse of every way of writing an option list (`RoundTrip`), and what it reads
  without an error was written that way (`Decode`). The simpler scanner agrees with it
  (`PlainAgrees`), by an exact condition on each element (`FitsIff`) and on the whole (`AgreeIff`).
- The counter machine of `tc.c` gives the verdict of a specification on phases for every body
  (`VerdictOfBody`), and writes at most two records (`RecordsOfRun`), which say what was counted and
  expected (`EndSays`).
- The parent's descriptor table is conserved at every failure point (`ForkWithStreams`,
  `ForkThenWait`). The child starts with the routed table (`ForkWithStreams`), exactly when
  `ChildStartsIff` says so, and its streams are then the specified ones (`ChildRouting`).
- Output and comparison do not depend on where reads divide a file (`CatFile`, `CompareFileCrlf`).
- A test program runs exactly when its command line is right and it is present in the source
  directory (`RunsIff`), and otherwise says which condition failed (`Refusals`).
- Each test case sees the last-wins fold of the `-v` options with `srcdir` overridden
  (`ControlledMain`, `ConfigurationIs`).

## Where the code and its own description differ

The model follows the code.

- `contrib/atf-0.23/atf-c++/detail/text.hpp:80-88` says that rejoining split words gives the string
  back. Empty words are dropped; `RejoinIff` has the exact condition.
- `contrib/atf-bmk/win/atfw-compat.c:267-270` says "the text, or CRLF for each LF". A file that mixes
  both line ends is accepted too; `DocumentedIffFewLfs` has the exact condition.
- `contrib/atf-0.23/atf-c/detail/tp_main.c:367` says that the state of getopt is cleared. With the
  getopt of the Windows layer the position inside a cluster stays after an unknown option; `FreshIff`
  has the exact condition on the command line. No test case runs after that error.
- `pass()` does not look at the count of failed checks (`contrib/atf-0.23/atf-c/tc.c:370-373`);
  `PassHidesFailures`. A body with a failed check in "pass" mode that ends in "expect fail" mode is
  `expected_failure` (`contrib/atf-0.23/atf-c/tc.c:1058-1063`); `PassFailureFailsIff` has the exact
  condition, `PassFailureForgotten` the shortest body.
- Appending to the root path doubles its slash, appending slashes leaves one
  (`contrib/atf-0.23/atf-c/detail/fs.c:464-468`); `AppendIff`.
- One descriptor redirected to both streams is closed before the second one asks for it
  (`contrib/atf-0.23/atf-c/detail/process.c:313-328`); `ReachesStartIff`.
- The scan of `atfw_enter` and getopt read some clusters and a lone "-" differently
  (`contrib/atf-bmk/win/atfw-compat.c:51-84`); `FitsIff`, `AgreeIff`.
- `contrib/atf-bmk/win/atfw-compat.h:49-51` says that `atf_fs_path_is_absolute` knows `C:/`. Paths are
  normalised first, and the normal form of `C:/` is `C:`, which is not absolute; `LetterAbsoluteIff`,
  `SourceDirAbsoluteIff`.

## Model

| member | source | states |
|---|---|---|
| AtfList.List.constructor | contrib/atf-0.23/atf-c/detail/list.c:195-221 | A new list is two linked, unfreed sentinels and no data. |
| AtfList.NewEntryAndLink | contrib/atf-0.23/atf-c/detail/list.c:95-110 | A new entry between two chains leaves one chain: distinct, unfreed entries, linked to their neighbours in both directions. |
| AtfList.List.Append | contrib/atf-0.23/atf-c/detail/list.c:351-367 | The contents grow by the object at the end, behind it the old end sentinel; every other entry keeps its place. |
| AtfList.Splice | contrib/atf-0.23/atf-c/detail/list.c:370-388 | Freeing the end sentinel of one chain and the begin sentinel of the other and tying their neighbours gives one chain of all other entries, linked in both directions. |
| AtfList.List.AppendList | contrib/atf-0.23/atf-c/detail/list.c:370-388 | Appending a disjoint valid list gives a valid list: its contents are the first list's and then the second's, its size the sum, exactly one sentinel of each is freed, and every surviving entry is where it was. |
| AtfList.List.Fini | contrib/atf-0.23/atf-c/detail/list.c:224-241 | The walk over the next links ends after exactly size + 2 entries, frees each of them (freeing requires that it was not freed before), and releases what the next rows say. |
| AtfList.ReleasedIs | contrib/atf-0.23/atf-c/detail/list.c:85-91 | For any mix of flags, what is released is the data of exactly the managed entries, in list order. |
| AtfList.NothingReleased | contrib/atf-0.23/atf-c/detail/list.c:85-91 | Entries whose objects are not managed release nothing. |
| AtfList.ReleasedWhenManaged | contrib/atf-0.23/atf-c/detail/list.c:85-91 | On a list that manages its data, what the destructor releases is exactly the contents: every object once, in order. |
| AtfList.List.Index | contrib/atf-0.23/atf-c/detail/list.c:274-290 | The walk to an index within the size returns the element at that index. |
| AtfList.ToCharpp | contrib/atf-0.23/atf-c/detail/list.c:319-344 | The array holds the contents in order and then NULL, with nothing behind it. |
| Bindings.AsMapLookup | contrib/atf-0.23/atf-c/detail/map.c:262-279 | The mathematical map of a binding list has exactly the listed keys, and with unique keys each maps to its listed value. |
| Bindings.InsertRefinesMap | contrib/atf-0.23/atf-c/detail/map.c:347-379 | Insertion keeps keys unique, is the map update on the mathematical map, and leaves the order of the keys alone but for a new key at the end. |
| Bindings.LastValueWins | contrib/atf-0.23/atf-c/detail/map.c:170-199 | After inserting any list of bindings in turn, keys are unique and each key has the last value given for it. |
| Bindings.FirstPositionWins | contrib/atf-0.23/atf-c/detail/map.c:170-199 | ... and the keys stand in the order of their first occurrences. |
| Bindings.Rebuild | contrib/atf-0.23/atf-c/detail/map.c:170-199 | Inserting the bindings of a map one by one into an empty one gives back the same bindings in the same order. |
| Bindings.PairsOfFlatten | contrib/atf-0.23/atf-c/detail/map.c:308-340 | Reading the flat key, value, ... array pairwise gives back the bindings that were written. |
| AtfMap.Map.constructor | contrib/atf-0.23/atf-c/detail/map.c:164-167 | A new map is empty. |
| AtfMap.Map.BeginsAt | contrib/atf-0.23/atf-c/detail/map.c:222-229 | The begin iterator stands on the first entry, or on the end of an empty map, in both of its fields. |
| AtfMap.Map.NextAt | contrib/atf-0.23/atf-c/detail/map.c:136-146 | From entry i the iterator moves to entry i + 1, in both fields, and yields the key and value of the i-th binding. |
| AtfMap.Map.EndsAt | contrib/atf-0.23/atf-c/detail/map.c:149-153 | Although iterator equality ignores the list iterator, an iterator equals the end exactly behind the last entry (the end sentinel holds NULL). |
| AtfMap.Map.Find | contrib/atf-0.23/atf-c/detail/map.c:262-279 | The result is the first entry with the key; it equals the end exactly when the mathematical map has no such key, and else holds that map's value. |
| AtfMap.Map.Insert | contrib/atf-0.23/atf-c/detail/map.c:347-379 | Updates in place or appends: the bindings become the specified insertion, the managed flag of that entry only is set, and an old value is freed exactly when it was managed. |
| AtfMap.Map.InsertNew | contrib/atf-0.23/atf-c/detail/map.c:355-366 | A missing key is appended behind all other bindings, whose values and flags stay. |
| AtfMap.Map.Link | contrib/atf-0.23/atf-c/detail/map.c:355-366 | The list append keeps the list sound inside the map and adds the entry at the end. |
| AtfMap.Map.Overwrite | contrib/atf-0.23/atf-c/detail/map.c:367-376 | A present key keeps its place; its value and flag are replaced, the old value freed when managed. |
| AtfMap.Map.Fini | contrib/atf-0.23/atf-c/detail/map.c:202-215 | Frees every managed value, and every list entry with both sentinels; through the list no map entry is freed a second time. |
| AtfMap.Map.FreeValues | contrib/atf-0.23/atf-c/detail/map.c:206-211 | The loop over the entries frees what the next row says. |
| AtfMap.ManagedValuesAre | contrib/atf-0.23/atf-c/detail/map.c:206-211 | For any mix of flags these are the values of exactly the managed entries, in order. |
| AtfMap.ToCharpp | contrib/atf-0.23/atf-c/detail/map.c:308-340 | The iteration visits every entry exactly once and stops: the array is key, value, ... in insertion order and then NULL. |
| AtfMap.InitCharpp | contrib/atf-0.23/atf-c/detail/map.c:170-199 | An array of even length gives the map of its pairs inserted in turn; a key without a value is an error, exactly for odd lengths. |
| AtfMap.CharppRoundTrip | contrib/atf-0.23/atf-c/detail/map.c:170-199 | A map written to an array and read back has the same bindings in the same order. |
| Dynstr.MemMoveUp | contrib/atf-0.23/atf-c/detail/dynstr.c:68-101 | The overlapping move towards higher addresses arrives whole and touches nothing above its target. |
| Dynstr.InsertInFront | contrib/atf-0.23/atf-c/detail/dynstr.c:68-101 | Moving the text up and writing in front of it gives the new text followed by the old. |
| Dynstr.Dynstr.constructor | contrib/atf-0.23/atf-c/detail/dynstr.c:118-135 | A new string is empty and terminated. |
| Dynstr.Dynstr.InitFmt | contrib/atf-0.23/atf-c/detail/dynstr.c:138-177 | The doubling loop ends with the complete text, in a buffer of the first size or of at most twice the text. |
| Dynstr.Dynstr.InitRaw | contrib/atf-0.23/atf-c/detail/dynstr.c:193-217 | The string is the memory up to its first NUL. |
| Dynstr.Dynstr.InitSubstr | contrib/atf-0.23/atf-c/detail/dynstr.c:246-256 | The substring between the two positions, each clamped to the length; both may lie beyond it. |
| Dynstr.Dynstr.CStr | contrib/atf-0.23/atf-c/detail/dynstr.c:295-298 | A reader of the buffer, who stops at the first NUL, sees the whole text and no more. |
| Dynstr.Dynstr.Resize | contrib/atf-0.23/atf-c/detail/dynstr.c:45-64 | The text moves unchanged to a fresh, larger buffer. |
| Dynstr.Dynstr.PrependOrAppend | contrib/atf-0.23/atf-c/detail/dynstr.c:68-101 | The text becomes old + new or new + old, and length < capacity, the NUL at the length and no NUL before it are kept, whether the buffer grows or is rearranged in place. |
| Dynstr.Dynstr.Append | contrib/atf-0.23/atf-c/detail/dynstr.c:335-345 | The text becomes old + new, the buffer invariant is kept. |
| Dynstr.Dynstr.Prepend | contrib/atf-0.23/atf-c/detail/dynstr.c:368-378 | The text becomes new + old, the buffer invariant is kept. |
| Dynstr.Dynstr.Clear | contrib/atf-0.23/atf-c/detail/dynstr.c:348-352 | The text becomes empty in the same buffer, the invariant is kept. |
| Dynstr.Dynstr.RFindCh | contrib/atf-0.23/atf-c/detail/dynstr.c:307-315 | The backward scan finds the last position of the character: it is there and not behind, or it is nowhere. |
| Text.Split | contrib/atf-0.23/atf-c/detail/text.c:93-137 | For every text and non-empty delimiter the cursor loop ends, and the list holds the non-empty pieces between leftmost delimiter matches. |
| Text.CppSplit | contrib/atf-0.23/atf-c++/detail/text.cpp:90-103 | The position loop over size_t, with its wrap-around at "not found", gives the same words as the C one. |
| Text.TurnMovesIffDelimiter | contrib/atf-0.23/atf-c/detail/text.c:104-129 | A turn of the C loop moves its cursor exactly when the delimiter is not empty. |
| Text.JoinPieces | contrib/atf-0.23/atf-c/detail/text.c:93-137 | Joining all pieces, empty ones included, with the delimiter gives the text back. |
| Text.PiecesAreCut | contrib/atf-0.23/atf-c/detail/text.c:104-129 | Each piece is cut at the leftmost match: no delimiter can be seen earlier in it or across its end, and none in the last. |
| Text.CutIsPieces | contrib/atf-0.23/atf-c/detail/text.c:104-129 | There is only one such cutting of a text. |
| Text.SplitOfJoin | contrib/atf-0.23/atf-c++/detail/text.hpp:55-73 | Splitting the join of non-empty words that the delimiter cannot be seen in gives back the words. |
| Text.SeparableChar | contrib/atf-0.23/atf-c++/detail/text.hpp:55-73 | For a one-character delimiter that condition says that the word does not contain it. |
| Text.RejoinIff | contrib/atf-0.23/atf-c++/detail/text.hpp:80-88 | Rejoining the split words gives the text back exactly when the text is empty or has no empty piece (the comment there says always). |
| Text.RejoinLosesEmpty | contrib/atf-0.23/atf-c++/detail/text.hpp:80-88 | A text for which it does not: ",a" becomes "a". |
| Text.StrTok | contrib/atf-0.23/atf-c/detail/text.c:38-61 | Repeated calls hand over exactly the maximal runs of non-separators. |
| Text.ForEachWord | contrib/atf-0.23/atf-c/detail/text.c:38-61 | The callback sees a prefix of the words in order: all of them unless it fails, and then up to the word it fails on. |
| Text.TokensAreWords | contrib/atf-0.23/atf-c/detail/text.c:38-61 | For a one-character delimiter the words visited are the words that split returns. |
| Build.AppendConfigVar | contrib/atf-0.23/atf-c/build.c:42-56 | The words of the variable (or of its default) are spliced behind the list. |
| Build.AppendOptargs | contrib/atf-0.23/atf-c/build.c:80-91 | The optional arguments are appended in order. |
| Build.AppendSrcOut | contrib/atf-0.23/atf-c/build.c:95-111 | "-o", the object, "-c", the source are appended in this order. |
| Build.ListToArray | contrib/atf-0.23/atf-c/build.c:115-139 | The argument array is the list's contents and a NULL, after the list is destroyed. |
| Build.BuildCO | contrib/atf-0.23/atf-c/build.c:146-189 | For all settings the C command line is the words of the compiler, CPPFLAGS and CFLAGS (those of `EnvWordsAreTokens`), the optional arguments, then "-o out -c src", and NULL. |
| Build.BuildCxxO | contrib/atf-0.23/atf-c/build.c:238-282 | The same for C++ with its compiler and CXXFLAGS. |
| Build.BuildCpp | contrib/atf-0.23/atf-c/build.c:192-235 | The preprocessor gets no language flags and no "-c". |
| Build.EnvWordsAreTokens | contrib/atf-0.23/atf-c/build.c:42-56 | A variable that is set contributes the maximal runs of non-blanks of its value, one that is not those of the default: no argument is empty or holds a blank. |
| Build.JoinedFlagsAreKept | contrib/atf-0.23/atf-c/detail/env.c:43-51 | A variable set to words joined by single blanks contributes exactly those words, whatever the default is; and so does the default when the variable is not set. |
| Build.CompilerIsSet | contrib/atf-0.23/atf-c/build.c:157 | For example, ATF_BUILD_CC set to one word is the compiler, whatever the default is. |
| Fs.NormalizeKeeps | contrib/atf-0.23/atf-c/detail/fs.c:239-267 | Normalising keeps the component list and absoluteness of every non-empty path. |
| Fs.NormalizeIsNormal | contrib/atf-0.23/atf-c/detail/fs.c:239-267 | The result has no doubled slash and no trailing one unless it is "/". |
| Fs.NormalIffFixed | contrib/atf-0.23/atf-c/detail/fs.c:239-267 | A path has that form exactly when normalising leaves it unchanged. |
| Fs.NormalizeIdempotent | contrib/atf-0.23/atf-c/detail/fs.c:239-267 | Normalising twice is normalising once. |
| Fs.NormalFormUnique | contrib/atf-0.23/atf-c/detail/fs.c:239-267 | The normal form is the only normal path with the same components and absoluteness. |
| Fs.AppendIff | contrib/atf-0.23/atf-c/detail/fs.c:454-474 | Appending q to a normal p equals normalising p/q exactly when p is not the root and q names something; for all p and q. |
| Fs.AppendNamed | contrib/atf-0.23/atf-c/detail/fs.c:454-474 | Appending a path that names something gives p, a slash and the components of q joined. |
| Fs.AppendSlashes | contrib/atf-0.23/atf-c/detail/fs.c:464-468 | Appending slashes leaves one trailing slash, so the result is not normal. |
| Fs.AppendToRoot | contrib/atf-0.23/atf-c/detail/fs.c:464-468 | Appending anything to the root gives a path that is not normal. |
| Fs.BranchAndLeaf | contrib/atf-0.23/atf-c/detail/fs.c:390-435 | The branch of a normal path is normal and as absolute as the path; its components followed by the leaf are the path's components exactly when the path has a slash and is not the root. |
| Fs.CutAtLastSlash | contrib/atf-0.23/atf-c/detail/fs.c:390-435 | For any text a, normal or not, and any name without a slash: the leaf of a/name is the name and its branch is a, or "/" when a is empty; of the name alone the leaf is the name and the branch ".". |
| Fs.LetterNormalize | contrib/atf-0.23/atf-c/detail/fs.c:239-267 | The normal form of a path on a drive letter; the drive alone loses its slash. |
| Fs.LetterAbsoluteIff | contrib/atf-bmk/win/atfw-compat.c:33-38 | By the Windows rule a path on a drive stays absolute under normalising exactly when it names something there. |
| Fs.IsAbsoluteIs | contrib/atf-bmk/win/atfw-compat.c:33-38 | A path is absolute exactly when it is a slash and a rest, or, on Windows only, a letter, ":/" and a rest. |
| Fs.LetterIs | contrib/atf-bmk/win/atfw-compat.c:33-38 | The letters are the 26 Latin ones in both cases. |
| FsPath.NormalizeAp | contrib/atf-0.23/atf-c/detail/fs.c:271-293 | The token loop on a growing string ends with the normal form. |
| FsPath.AppendAp | contrib/atf-0.23/atf-c/detail/fs.c:454-474 | The path in the string becomes p, a slash unless the normalised q brings one, and the normalised q. |
| FsPath.BranchPath | contrib/atf-0.23/atf-c/detail/fs.c:390-408 | A new path: the text before the last slash, "/" when that slash is the first character, "." without one. |
| FsPath.LeafName | contrib/atf-0.23/atf-c/detail/fs.c:417-435 | A new string: the text behind the last slash. |
| Libgen.TrimSeps | contrib/atf-bmk/win/atfw-msvc.c:131-145 | The first loop overwrites exactly the trailing separators with NULs. |
| Libgen.BasenameC | contrib/atf-bmk/win/atfw-msvc.c:131-145 | The returned C string is the last name, or "." for NULL and the empty path; in the path only trailing separators are overwritten. |
| Libgen.DirnameC | contrib/atf-bmk/win/atfw-msvc.c:148-168 | The returned C string is everything before the last name and the separators around it, cut with one NUL, or "."; NULL is accepted. |
| Libgen.BasenameIsLeafIff | contrib/atf-bmk/win/atfw-msvc.c:131-145 | Without backslashes, basename of any spelling equals leaf_name of the normal form exactly when the path is not all slashes. |
| Libgen.DirnameIsBranch | contrib/atf-bmk/win/atfw-msvc.c:148-168 | Without backslashes, dirname of any spelling normalises to branch_path of the normal form. |
| Libgen.DirnameOfNormal | contrib/atf-bmk/win/atfw-msvc.c:148-168 | For a normal path without backslashes dirname and branch_path agree character for character. |
| Libgen.BasenameOfAnyIff | contrib/atf-bmk/win/atfw-msvc.c:125-145 | For every path, backslashes included: basename is the leaf of the normal form of the path with slashes only, exactly when it is not separators alone. |
| Libgen.DirnameOfAny | contrib/atf-bmk/win/atfw-msvc.c:125-168 | For every path, backslashes included: dirname, with slashes only, normalises to the branch of that path. |
| Libgen.NameAndDirectory | contrib/atf-bmk/win/atfw-msvc.c:125-168 | The exact text of both for every path that is not separators alone: of front, separators, a name and more separators basename is the name and dirname the front, the first separator when the front is empty, and "." without separators. |
| Libgen.OnlySeparators | contrib/atf-bmk/win/atfw-msvc.c:125-168 | For separators alone both are the first one. |
| Utils.File.Read | contrib/atf-0.23/atf-c/utils.c:105-137 | The contract of read(2): any non-empty part of what is left up to the size, 0 only at the end, or an error. |
| Utils.PrefixedConcat | contrib/atf-0.23/atf-c/utils.c:105-137 | Prefixing lines does not depend on where the text is divided. |
| Utils.PrefixedLines | contrib/atf-0.23/atf-c/utils.c:105-137 | What prefixed text means: each line, the last one possibly unterminated, behind the prefix once. |
| Utils.CatBuffer | contrib/atf-0.23/atf-c/utils.c:115-133 | One buffer continues the prefixed text and tells whether its last line is unfinished, whatever the buffer's boundaries. |
| Utils.CatFile | contrib/atf-0.23/atf-c/utils.c:105-137 | For every file and every division into reads, the output is the prefixed text exactly when the file holds no NUL; only a failing read excuses from that. |
| Utils.ReadLine | contrib/atf-0.23/atf-c/utils.c:367-389 | Unless a read fails: one line without its newline and without NULs, NULL exactly when nothing is left to return; the offset moves just behind the newline. |
| Utils.ReadAllRebuilds | contrib/atf-0.23/atf-c/utils.c:367-389 | Lines read until the first NULL are the text without its NULs, cut at its newlines; only a final newline is lost. |
| Compare.CompareFile | contrib/atf-0.23/atf-c/utils.c:146-167 | For every division into reads the result is true exactly when the file is the expected text; a failing read makes it false. |
| Compare.AcceptsIffSameText | contrib/atf-bmk/win/atfw-compat.c:271-306 | The comparison loop accepts exactly the expected text with some subset of its LFs written as CRLF. |
| Compare.CompareBuffer | contrib/atf-bmk/win/atfw-compat.c:280-302 | One buffer leaves the acceptance of the whole unchanged, a CR waiting at its end included. |
| Compare.CompareFileCrlf | contrib/atf-bmk/win/atfw-compat.c:271-306 | For every division into reads, between CR and LF included, the result is true exactly on such files; a failing read makes it false. |
| Compare.PosixImpliesWindows | contrib/atf-bmk/win/atfw-compat.c:271-306 | What the POSIX comparison accepts, the Windows one accepts. |
| Compare.DocumentedIffFewLfs | contrib/atf-bmk/win/atfw-compat.c:267-270 | The code accepts no more than its comment says exactly for expected texts of at most one line feed. |
| Compare.MixedIsAccepted | contrib/atf-bmk/win/atfw-compat.c:267-270 | The shortest file that is accepted against the comment: two line feeds, the first one written as CRLF. |
| Tc.Context.CreateResfile | contrib/atf-0.23/atf-c/tc.c:249-271 | One record is written: a file that can be truncated holds it alone, another one behind what it had. |
| Tc.Context.ErrorInExpect | contrib/atf-0.23/atf-c/tc.c:275-286 | The mode becomes "pass" and the process fails with one "failed" record; the mutual recursion with fail_requirement terminates. |
| Tc.Context.FailRequirement | contrib/atf-0.23/atf-c/tc.c:330-343 | Ends the process as the model says in each of the six modes; terminates. |
| Tc.Context.ValidateExpect | contrib/atf-0.23/atf-c/tc.c:293-317 | Comes back unchanged, or ends the process as the model says. |
| Tc.Context.FailCheck | contrib/atf-0.23/atf-c/tc.c:346-362 | Counts in the two modes that go on, ends the process in the other four. |
| Tc.Context.PassExit | contrib/atf-0.23/atf-c/tc.c:365-379 | Ends the process as the model says, without looking at the count of failed checks. |
| Tc.Context.SkipExit | contrib/atf-0.23/atf-c/tc.c:382-387 | Ends the process successfully with a "skipped" record in every mode. |
| Tc.Context.ExpectPass | contrib/atf-0.23/atf-c/tc.c:948-953 | Validates the expectation that ends, then starts the new one. |
| Tc.Context.ExpectFail | contrib/atf-0.23/atf-c/tc.c:956-968 | ... and remembers the failures counted so far. |
| Tc.Context.ExpectAbrupt | contrib/atf-0.23/atf-c/tc.c:971-1034 | ... and writes the record of the exit, signal, death or timeout at once. |
| Tc.Context.SetResfile | contrib/atf-0.23/atf-c/tc.c:129-149 | The old file is closed; records go to the new one from then on, which is emptied when it can be. |
| Tc.Context.Perform | contrib/atf-0.23/atf-c/tc.c:849-1041 | Every call of a test body is the step of the model on the whole state: mode, counters, records and file. |
| Tc.TcRun | contrib/atf-0.23/atf-c/tc.c:1050-1075 | For every sequence of calls the process ends, with the exit status, records and results file of the model's run. |
| TcVerdict.ValidateFails | contrib/atf-0.23/atf-c/tc.c:293-317 | Leaving a phase stops the process exactly when the phase must not be left, and then with "failed". |
| TcVerdict.StepTracks | contrib/atf-0.23/atf-c/tc.c:948-1034 | One non-fatal call keeps the counters in step with the phases, and ends the process exactly when an expectation is violated. |
| TcVerdict.RunTracks | contrib/atf-0.23/atf-c/tc.c:948-1034 | So does every sequence of non-fatal calls. |
| TcVerdict.FinishVerdict | contrib/atf-0.23/atf-c/tc.c:1050-1075 | A body that returns gets the verdict of its phases: failed, expected_failure or passed, by the counter-free rules. |
| TcVerdict.FatalVerdict | contrib/atf-0.23/atf-c/tc.c:330-387 | A body that ends in a fatal call gets the verdict of its phases and that call. |
| TcVerdict.VerdictOfBody | contrib/atf-0.23/atf-c/tc.c:1050-1075 | For every body, fatal calls included, the machine gives the verdict of the phase specification, and the exit status is a failure exactly when that is "failed". |
| TcVerdict.PassHidesFailures | contrib/atf-0.23/atf-c/tc.c:365-379 | An explicit pass in "pass" mode gives "passed" whatever failed before, where the same body falling off its end fails exactly when some check in a "pass" phase did. |
| TcVerdict.PassAfterFailure | contrib/atf-0.23/atf-c/tc.c:365-379 | The shortest such body: a failed check and a pass. |
| TcVerdict.PassFailureFailsIff | contrib/atf-0.23/atf-c/tc.c:1058-1063 | A body with a failed check in a "pass" phase that returns is failed exactly when an expectation is violated or unfinished or its last phase is a "pass" one; else it is an expected failure. |
| TcVerdict.PassFailureForgotten | contrib/atf-0.23/atf-c/tc.c:1058-1063 | The shortest body whose failed check is reported as an expected failure. |
| TcRecords.ErrorRecords | contrib/atf-0.23/atf-c/tc.c:275-286 | An error in an expectation leaves at most two records, the last one "failed". |
| TcRecords.StepRecords | contrib/atf-0.23/atf-c/tc.c:849-1041 | Every call keeps the record discipline: a running test case has a record only in the modes that must not go on. |
| TcRecords.RecordsOfRun | contrib/atf-0.23/atf-c/tc.c:1050-1075 | Every run, results-file switches included, ends with one or two records; a second only behind an exit, signal, death or timeout expectation that continued; the exit status is a failure exactly when the last record is "failed"; a file that can be truncated holds exactly the last record. |
| TcRecords.FileOfRun | contrib/atf-0.23/atf-c/tc.c:249-271 | Without a switch the file holds exactly the last record, or, when it cannot be truncated, what it had and then every record. |
| TcReasons.AbruptSays | contrib/atf-0.23/atf-c/tc.c:970-1034 | An expect-exit, -signal, -death or -timeout call that goes on adds exactly one record: its verdict is expected_exit exactly in exit mode, and likewise for the other three, with the argument and the reason of the call. |
| TcReasons.ErrorSays | contrib/atf-0.23/atf-c/tc.c:274-286 | An error in an expectation ends the process with status 1 and one more record: failed, for the error's own message, in every mode. |
| TcReasons.ValidateSays | contrib/atf-0.23/atf-c/tc.c:292-317 | Leaving an abrupt mode fails for its having continued, leaving "expect fail" for the failure that was not raised; "pass" may always be left. |
| TcReasons.FailSays | contrib/atf-0.23/atf-c/tc.c:329-343 | A failed requirement is failed for its reason, an expected failure that joins the reason of the expectation with its own, or failed as unexpected, by the mode. |
| TcReasons.FailNonfatalSays | contrib/atf-0.23/atf-c/tc.c:345-362 | A failed check goes on and writes nothing in the first two modes, and is failed as unexpected in the others. |
| TcReasons.PassSays | contrib/atf-0.23/atf-c/tc.c:364-379 | An explicit pass is passed, or failed as a pass instead of a failure, or failed as unexpected, by the mode. |
| TcReasons.SkipSays | contrib/atf-0.23/atf-c/tc.c:381-387 | A skip is skipped for its reason in every mode. |
| TcReasons.RunCounts | contrib/atf-0.23/atf-c/tc.c:345-362 | After any body of non-fatal calls the two counters are the numbers of checks that failed in "pass" and in "expect fail" phases, and the kept reason is that of the last expect-fail call. |
| TcReasons.EndSays | contrib/atf-0.23/atf-c/tc.c:1058-1072 | The record of a body that returns with its expectations met, word for word: how many checks failed, and for which expectation. |
| TcReasons.FailBehindSays | contrib/atf-0.23/atf-c/tc.c:319-327 | A requirement that fails behind any body in "expect fail" mode: the record joins the reason of the last expect-fail call with its own. |
| TcReasons.SwitchOpens | contrib/atf-0.23/atf-c/tc.c:129-149 | Switching the results file keeps the records and opens the new file, emptied when it can be. |
| TcReasons.FileSince | contrib/atf-0.23/atf-c/tc.c:249-271 | From a switch on, whatever the calls, the new file holds exactly the last record since, or, when it cannot be emptied, what it had and every record since. |
| Process.StreamPrepare.Init | contrib/atf-0.23/atf-c/detail/process.c:63-83 | A captured stream gets a pipe on two unused descriptors; on failure the table is unchanged. |
| Process.StreamPrepare.Fini | contrib/atf-0.23/atf-c/detail/process.c:87-93 | Exactly the two ends of the pipe are closed. |
| Process.SafeDup | contrib/atf-0.23/atf-c/detail/process.c:313-328 | The descriptor moves to its target and nothing else changes; it fails only when the descriptor is closed or dup2 may fail, and then changes nothing. |
| Process.ChildConnect | contrib/atf-0.23/atf-c/detail/process.c:332-367 | The child's table becomes what the stream asks for, and the stream's own pipe is gone from it; without a failing dup2 it fails only when the stream asks for the impossible. Only a file opened straight onto its descriptor stays marked close-on-exec. |
| Process.RouteApart | contrib/atf-0.23/atf-c/detail/process.c:332-367 | The other stream's pipe, still in the table, changes nothing of that. |
| Process.DoChild | contrib/atf-0.23/atf-c/detail/process.c:422-451 | With both pipes in its table the child gets to its start with the table both streams ask for, pipes gone, and exits with a failure exactly when they cannot be set up, or when dup2 may fail. |
| Process.ParentConnect | contrib/atf-0.23/atf-c/detail/process.c:371-389 | The write end of a captured stream is closed and its read end handed over. |
| Process.DoParent | contrib/atf-0.23/atf-c/detail/process.c:393-411 | The child structure is initialised and filled; the parent keeps of both pipes only the read ends. |
| Process.PrepareBoth | contrib/atf-0.23/atf-c/detail/process.c:455-500 | Both streams are prepared on distinct unused descriptors, or the table is the one before the call. |
| Process.ForkWithStreams | contrib/atf-0.23/atf-c/detail/process.c:455-500 | If a pipe or the fork fails the parent's table is the one before the call; otherwise it gains exactly the read ends of the captured streams. The child starts with the routed table, or exits when there is none; only a dup2 that may fail excuses from that. Its captured streams are the other ends of those pipes. |
| Process.ChildWait | contrib/atf-0.23/atf-c/detail/process.c:271-285 | After a successful wait the descriptors of the child are closed; an interrupted one closes none. |
| Process.ForkThenWait | contrib/atf-0.23/atf-c/detail/process.c:262-285 | Fork and a successful wait together leave the parent's table as it was. |
| Process.ForkAndWait | contrib/atf-0.23/atf-c/check.c:162-190 | Fork and wait together leave the parent's table as it was; an interrupted wait leaves exactly the read ends of captured streams, of which there are none in check.c. |
| Process.ExecArray | contrib/atf-0.23/atf-c/detail/process.c:599-645 | However often the wait is interrupted, the call ends with the parent's table as it was. The child is the one routed by the two streams that are given, inherited for NULL, and the program in it has that table without descriptors that were close-on-exec in the parent, and without a stderr path that was opened onto descriptor 2 itself (only with stdout redirected from 2). |
| Process.InitStreamWithDefault | contrib/atf-0.23/atf-c/detail/process.c:504-520 | The stream is the one that the caller gives; only for NULL it is the inherited one. |
| Routing.ReachesStartIff | contrib/atf-0.23/atf-c/detail/process.c:422-451 | For all stream pairs the child reaches its start exactly when the files could be made and setting up stdout has not moved away what stderr is to come from. |
| Routing.ChildStartsIff | contrib/atf-0.23/atf-c/detail/process.c:422-500 | In terms of the call: the child that fork_with_streams sets up starts exactly when no path fails to open and stdout has not moved away what stderr is to come from. |
| Routing.SameDescriptorTwice | contrib/atf-0.23/atf-c/detail/process.c:346-350 | One descriptor given for both streams never reaches the start. |
| Routing.RedirectBothIff | contrib/atf-0.23/atf-c/detail/process.c:346-350 | Two descriptors above 2 work exactly when they differ, and then both leave the table. |
| Routing.ChildRouting | contrib/atf-0.23/atf-c/detail/process.c:332-367 | For all stream pairs stdout and stderr of the child are on the specified files, in the order in which the streams are set up (stdout is gone when stderr was redirected from it), and no other descriptor changes. |
| Routing.StdoutFromStderr | contrib/atf-0.23/atf-c/detail/process.c:346-350 | With stdout redirected from descriptor 2 the child has no stderr exactly when the second stream does not set it. |
| Routing.NoPipeLeaks | contrib/atf-0.23/atf-c/detail/process.c:332-367 | No descriptor but those the streams replace is on a pipe or file that the call made. |
| Routing.StdoutRedirected | contrib/atf-0.23/atf-c/detail/process.c:332-367 | The child's whole table, pair by pair, for streams that are inherited, redirected to a descriptor above 2, or connected to each other. |
| Routing.StreamsMade | contrib/atf-0.23/atf-c/detail/process.c:332-367 | The same for captured streams, each on the write end of its own pipe, and for paths: each on a new file, or the end of the child when it cannot be opened. |
| Getopt.Parser.constructor | contrib/atf-bmk/win/atfw-msvc.c:14-20 | A fresh parser stands at the first character of element 1. |
| Getopt.Parser.Next | contrib/atf-bmk/win/atfw-msvc.c:18-71 | One call returns, and leaves in optind, pos, optarg and optopt, what the step function says, for every option string, leading "+" or "-" and ":" included. |
| Getopt.StepKeepsReady | contrib/atf-bmk/win/atfw-msvc.c:18-71 | Every call keeps pos inside its element and optind within argc, returns -1 only with pos at 1, and else moves on in (elements left, characters left). |
| Getopt.StepKeepsInBounds | contrib/atf-bmk/win/atfw-msvc.c:18-71 | Also after the caller has set optind elsewhere: as long as pos is inside the element at optind, every call keeps it so and returns -1 only with pos at 1. |
| GetoptRoundTrip.ItemRun | contrib/atf-bmk/win/atfw-msvc.c:18-71 | One written element (cluster, attached or separate argument) is read back as what it means, and the parser stands behind it. |
| GetoptRoundTrip.RoundTrip | contrib/atf-bmk/win/atfw-msvc.c:18-71 | Any option list over any option string, in any mix of clusters, attached and separate arguments, ended by an operand, "--" or nothing, is read back as exactly that list with optind at the first operand (IEEE Std 1003.1-2017, XBD section 12.2). |
| GetoptRoundTrip.Decode | contrib/atf-bmk/win/atfw-msvc.c:18-71 | Conversely every argv that is read without an error is such a list written that way, its end, and the operands at optind. |
| GetoptRoundTrip.UnknownIs | contrib/atf-bmk/win/atfw-msvc.c:36-46 | Behind any flags of any option string, a character that is no option is reported as such, and reading goes on behind it in the same element or with the next one. |
| GetoptRoundTrip.MissingIs | contrib/atf-bmk/win/atfw-msvc.c:52-63 | An option whose argument is missing at the end of argv is reported, as ":" exactly when the option string, behind its sign, starts with a colon. |
| GetoptRoundTrip.DeclaredIs | contrib/atf-bmk/win/atfw-msvc.c:36-48 | A character is an option when it stands in the option string and is no colon; it takes an argument exactly when a colon follows where it first stands. |
| GetoptRoundTrip.StripIs | contrib/atf-bmk/win/atfw-msvc.c:24-25 | One leading "+" or "-", and nothing else, is no part of the option string. |
| Enter.DrivePath | contrib/atf-bmk/win/atfw-compat.c:153-168 | /cygdrive/d/rest becomes d:/rest, and /cygdrive/d becomes d:/, cut to the buffer. |
| Enter.DriveComponents | contrib/atf-bmk/win/atfw-compat.c:153-168 | The components below the drive are kept behind the Windows drive. |
| Enter.RootComponents | contrib/atf-bmk/win/atfw-compat.c:169-173 | Every other absolute path keeps its components behind those of the Cygwin root, and stays when none is known. |
| Enter.ConvertibleIff | contrib/atf-bmk/win/atfw-compat.c:158-175 | A path is changed by some root exactly when it is absolute and does not start with two slashes. |
| Enter.ConvertIdempotent | contrib/atf-bmk/win/atfw-compat.c:158-175 | A path made native once is left alone the next time (atfw_open converts what atfw_enter has converted), for a root and a drive that do not start with a slash. |
| Enter.ConvertIdempotentIff | contrib/atf-bmk/win/atfw-compat.c:158-175 | When nothing is cut off, the exact condition on path, drive and root for that. |
| Enter.OnDriveIs | contrib/atf-bmk/win/atfw-compat.c:162-163 | A path is on a Cygwin drive exactly when it is /cygdrive/ and one character, alone or followed by a slash and a rest. |
| Enter.OthersStay | contrib/atf-bmk/win/atfw-compat.c:167-174 | Relative and empty paths, and those that start with two slashes, stay as they are. |
| Enter.GoesUnderRoot | contrib/atf-bmk/win/atfw-compat.c:167-173 | Every other path, of any length, becomes the root and the path, cut to the buffer, and stays when no root is known. |
| Enter.FitIs | contrib/atf-bmk/win/atfw-compat.c:54-74 | Cut to the buffer means the longest front of at most 4095 characters. |
| Enter.EnterArgv | contrib/atf-bmk/win/atfw-compat.c:45-87 | The loop over the argument array makes argv[0] slash-separated and rewrites the path arguments as the scan says. |
| Enter.ScanOfPath | contrib/atf-bmk/win/atfw-compat.c:56-84 | At -s or -r alone the scan makes the next element native and goes on behind it. |
| Enter.ScanOfAttached | contrib/atf-bmk/win/atfw-compat.c:56-84 | At -s or -r with a path attached it makes that native. |
| Enter.ScanOfOther | contrib/atf-bmk/win/atfw-compat.c:56-71 | At -v alone it passes over the value too, at any other element with a "-" over that one; it ends at "--" and at any element without a "-". |
| EnterAgrees.OptString | contrib/atf-0.23/atf-c/detail/tp_main.c:336-337 | The options are l, r, s and v, and r, s and v take an argument. |
| EnterAgrees.ElementRun | contrib/atf-bmk/win/atfw-msvc.c:18-71 | getopt reads every option element, clusters and unknown characters included, as the given results and goes on at the given element. |
| EnterAgrees.TurnAgrees | contrib/atf-bmk/win/atfw-compat.c:56-84 | One turn of atfw_enter at an element that fits leaves one that getopt reads as before, but for the path made native. |
| EnterAgrees.PlainAgrees | contrib/atf-bmk/win/atfw-compat.c:51-84 | For every argv whose option elements fit, getopt after atfw_enter reports what it would have reported before, with exactly the arguments of -s and -r made native, -v values untouched and optind unchanged, and nothing from the first operand on is touched. |
| EnterAgrees.FitsIff | contrib/atf-bmk/win/atfw-compat.c:51-84 | Element by element: the scanners agree before every continuation that is read alike by itself, and for every root, exactly when the element fits. |
| EnterExact.AgreeIff | contrib/atf-bmk/win/atfw-compat.c:51-84 | As a whole: for every root getopt after atfw_enter reports what it would have reported, with the arguments of -s and -r made native, optind and the operands unchanged, exactly when going over the command line with both scanners at once shows no path to convert that only one of them sees. |
| EnterExact.QuietIff | contrib/atf-bmk/win/atfw-compat.c:56-84 | atfw_enter changes nothing, for any root, exactly when its scan meets no path to convert. |
| EnterExact.PlainIsAlike | contrib/atf-bmk/win/atfw-compat.c:51-84 | Command lines whose elements fit are among these. |
| EnterExact.MadeHarmless | contrib/atf-bmk/win/atfw-compat.c:51-84 | One that is among them although an element does not fit: -ls dir. |
| EnterAgrees.Misfit | contrib/atf-bmk/win/atfw-compat.c:51-84 | Every element that does not fit (a lone "-"; a cluster with a path attached, or with an argument in the next element) has a continuation that shows it. |
| EnterAgrees.HarmlessClusters | contrib/atf-bmk/win/atfw-compat.c:56-71 | Clusters that fit: -ll, -lvx=1, -lsdir; and two that do not: -ls/x, -lv. |
| EnterAgrees.ClusterIsMissed | contrib/atf-bmk/win/atfw-compat.c:56-71 | With a cluster the agreement fails: the path of "-ls" is not seen. |
| EnterAgrees.LoneDashIsPassed | contrib/atf-bmk/win/atfw-compat.c:56-71 | With a lone "-" it fails too: an operand is rewritten. |
| TpParams.VarOf | contrib/atf-0.23/atf-c/detail/tp_main.c:207-225 | A -v argument splits at its first "=": name and value with "=" between are the argument, and the name has none. |
| TpParams.VarOfUnique | contrib/atf-0.23/atf-c/detail/tp_main.c:207-225 | Every name without "=" and every value are read back from name=value. |
| TpParams.TcArgIs | contrib/atf-0.23/atf-c/detail/tp_main.c:291-320 | A name alone, or followed by ":body", is the body, by ":cleanup" the cleanup; any other part is an error. |
| TpParams.ProgNameIs | contrib/atf-0.23/atf-c/detail/tp_main.c:591-601 | The program name is what stands behind the last slash, without the prefix "lt-". |
| TpParams.FirstFaultIs | contrib/atf-0.23/atf-c/detail/tp_main.c:336-363 | The reported error is that of the earliest faulty option, and there is none exactly when no option is faulty. |
| TpParams.ParsedSnoc | contrib/atf-0.23/atf-c/detail/tp_main.c:338-362 | One more faultless option changes one setting only. |
| TpParams.ParamsOfWritten | contrib/atf-0.23/atf-c/detail/tp_main.c:324-395 | The settings of every command line written by the Utility Syntax Guidelines depend on its options and operands, not on how they are written. |
| TpMeaning.NoOptions | contrib/atf-0.23/atf-c/detail/tp_main.c:166-192 | Without options: no list, the directory of argv[0], the body, /dev/stdout, no variables. |
| TpMeaning.UnknownRefused | contrib/atf-0.23/atf-c/detail/tp_main.c:359-361 | Behind any faultless options, a character that is none of the four options is the error that is reported, whatever follows. |
| TpMeaning.MissingRefused | contrib/atf-0.23/atf-c/detail/tp_main.c:355-357 | So is an option of the three whose argument is missing at the end. |
| TpMeaning.ValueRefused | contrib/atf-0.23/atf-c/detail/tp_main.c:343-353 | So is a -v argument without "=" (and an empty path for -s or -r, which violates the PRE of normalize), whatever follows. |
| TpMeaning.NamedIs | contrib/atf-0.23/atf-c/detail/tp_main.c:374-388 | With -l any operand is an error; otherwise none and more than one are, and one is a test case name with or without its part. |
| TpFresh.FreshIff | contrib/atf-0.23/atf-c/detail/tp_main.c:364-372 | Resetting optind leaves a fresh parser exactly when the command line is not faultless items, then flags, then an unknown option with more text behind it in its element. |
| TpFresh.LeftInside | contrib/atf-0.23/atf-c/detail/tp_main.c:336-372 | Such a command line leaves the position inside its element, whatever follows. |
| TpFresh.InsideLeft | contrib/atf-0.23/atf-c/detail/tp_main.c:336-372 | A position left inside has read such a command line. |
| TpParams.LastCallStops | contrib/atf-0.23/atf-c/detail/tp_main.c:336-363 | The loop stops at -1 exactly when no option is faulty. |
| TpFresh.NotFresh | contrib/atf-0.23/atf-c/detail/tp_main.c:364-372 | After "-xl" the position inside the element is left at 2. |
| TpParams.LibtoolStripped | contrib/atf-0.23/atf-c/detail/tp_main.c:439-452 | For a program in libtool's directory the source directory is its parent, made absolute. |
| TpMeaning.SourceDirIs | contrib/atf-0.23/atf-c/detail/tp_main.c:425-452 | Any other source directory is kept when it is absolute, and else put below the current directory. |
| TpMeaning.SourceDirOfLibs | contrib/atf-0.23/atf-c/detail/tp_main.c:439-452 | Libtool's directory under the root stands for the root, and alone for the current directory. |
| TpMeaning.SrcdirIs | contrib/atf-0.23/atf-c/detail/tp_main.c:454-471 | That directory is accepted exactly when the file system says that the program is in it; it is refused by name exactly when the file system says that it is not, and as unanswered exactly when there is no answer. |
| TpMeaning.RunsIff | contrib/atf-0.23/atf-c/detail/tp_main.c:538-583 | For every command line and host: the program lists or runs exactly when the command line is right, the current directory is known if it is needed, the program is present in the source directory, the hook succeeds, and the named test case was added; and then it does what was asked for. |
| TpMeaning.Refusals | contrib/atf-0.23/atf-c/detail/tp_main.c:418-479 | For every faultless command line and every host: each refusal is given exactly in its own case, the first in the order of the checks. |
| TpParams.SourceDirAbsoluteIff | contrib/atf-0.23/atf-c/detail/tp_main.c:418-479 | The source directory put into the configuration is absolute by the POSIX rule always; by the Windows rule exactly when it is not libtool's directory right under a drive. |
| TpParams.SourceDirNormalIff | contrib/atf-0.23/atf-c/detail/tp_main.c:418-479 | By either rule it is a normal path exactly when it was given absolute, or the current directory is not the root, or it is libtool's directory itself. |
| TpParams.ConfigurationIs | contrib/atf-0.23/atf-c/detail/tp_main.c:462-466 | What a test case sees has unique keys, is the last-wins fold of the -v variables with srcdir overridden, in the order of first occurrence, and is unchanged by an array round trip. |
| TpParams.VariableIs | contrib/atf-0.23/atf-c/detail/tp_main.c:352-354 | In that fold a variable has the value of the last -v that names it. |
| TpMain.Params.constructor | contrib/atf-0.23/atf-c/detail/tp_main.c:166-192 | The initial settings: the directory of argv[0], /dev/stdout, an empty configuration. |
| TpMain.Params.ParseVflag | contrib/atf-0.23/atf-c/detail/tp_main.c:207-225 | The variable is inserted into the configuration; without "=" nothing is, and it is an error. |
| TpMain.Params.Take | contrib/atf-0.23/atf-c/detail/tp_main.c:338-362 | The switch turns the settings of the options so far into those of one option more, or reports its fault. |
| TpMain.OptionLoop | contrib/atf-0.23/atf-c/detail/tp_main.c:334-363 | The loop ends with the first fault, or with the settings of all options and optind at the first operand. |
| TpMain.ProcessParams | contrib/atf-0.23/atf-c/detail/tp_main.c:324-395 | For every argv the outcome is the declarative one, every usage error included; optind is reset to 1, and on success the parser is fresh. |
| TpMain.HandleTcarg | contrib/atf-0.23/atf-c/detail/tp_main.c:291-320 | The test case name up to the first ":", and the part behind it, which must be "body" or "cleanup". |
| TpMain.FindSourceDir | contrib/atf-0.23/atf-c/detail/tp_main.c:418-452 | The directory made absolute, by the rule of the host, and without libtool's directory, or the failure of getcwd. |
| TpMain.FindProgram | contrib/atf-0.23/atf-c/detail/tp_main.c:454-473 | The method finds the directory that `SrcdirIs` is about, or reports its error; a missing program and an error of the file system are told apart. |
| TpMain.HandleSrcdir | contrib/atf-0.23/atf-c/detail/tp_main.c:418-479 | "srcdir" is set in the configuration and nothing else changes, or the error is reported. |
| TpMain.HandOn | contrib/atf-0.23/atf-c/detail/map.c:308-340 | Handing a configuration on as an array gives an equal, separate map. |
| TpMain.AddTcs | contrib/atf-0.23/atf-c/macros.h:113-129 | Every test case gets a configuration equal to the test program's. |
| TpMain.ControlledMain | contrib/atf-0.23/atf-c/detail/tp_main.c:538-583 | For every command line and host: the action is the declarative one, every error included, and every test case sees the configuration of the -v options with srcdir overridden, through both conversions. |
| TpMain.SeesConfiguration | contrib/atf-0.23/atf-c/detail/tp_main.c:555-565 | So every test case sees, as a mathematical map, the variables of the -v options with srcdir set to the directory that the program was found in. |
| TpEnter.EnteredParams | contrib/atf-bmk/win/atfw-compat.c:94-98 | For every command line that both scanners read alike: behind atfw_enter the test program has the settings, or the error, that it would have had, with the paths of -s and -r made native and the default directory taken from argv[0] with slashes; and the same variables. |
| TpEnter.EnteredMain | contrib/atf-bmk/win/atfw-compat.c:94-98 | And it does what these settings call for. |
| TpEnter.SrcdirUnderRoot | contrib/atf-bmk/win/atfw-compat.c:33-38 | A Cygwin path given with -s is looked for under the Cygwin root, wherever the program runs. |
| TpEnter.WindowsMain | contrib/atf-bmk/win/atfw-compat.c:94-98 | The entry point on Windows, with its rule for absolute paths: the argument array is rewritten in place, the action and the configuration of each test case are those of the rewritten command line, and, when both scanners read the original alike, the action is the one its own settings call for. |

## Left out

- Dynstr.Dynstr.InitSubstr: requires that the begin, once clamped, is not behind the end; the source subtracts without a check and would read before its buffer.
- Getopt.Parser.Next: requires that pos is inside the element at optind; a caller that moves optind to a shorter element makes the source read behind its end.
- Process.ForkWithStreams: what the child does is stated when stdout, stderr and the descriptors that the streams name are open in the parent, as the callers provide; otherwise only the parent's table is.
- Process.DoChild: the same.
- Tc.Context.SetResfile: does not model the abort when the file cannot be opened.
- Text.Split: an empty delimiter is excluded, because the loop then does not end (`TurnMovesIffDelimiter`).
- Utils.CatFile: the output for a file with NULs is only said to differ from the prefixed text.
- FsPath.NormalizeAp: the empty path violates the source's own PRE and is excluded; in `TpParams` it is an outcome of its own.
- EINTR retries of write_resfile, the layout of a record as text, and the messages printed to stderr: a record is its verdict, argument and reason.
- The wording of fixed messages: each is a constructor of `Reason` or `Fault`.
- vsnprintf and its error return, allocation failures and memory leaks.
- strtok_r and parse_vflag write NULs into their argument; both are modelled as cursors on an unchanged text.
- The end sentinel and link fields of a list that was spliced away: such a list is not used again.
- atf_dynstr_init_rep, atf_dynstr_copy, atf_text_to_bool and atf_text_to_long are not modelled.
- Descriptor limits, and that a new descriptor is the lowest unused one: the model takes any unused one.
- The head, cleanup and metadata of a test case, list_tcs output, and what runs after `ControlledMain` has chosen its action.
- atf_check, regular expressions, copy_file, grep_file, utils_fork and utils_wait.
- Enter.ConvertIdempotentIff: for results that fit the buffer of 4096 characters; longer ones are cut off, and `ConvertIdempotent` covers them.
- Enter.DriveComponents: for results that fit the buffer, and a drive that is not itself a slash; `DrivePath` covers the others.
- Enter.RootComponents: for results that fit the buffer.
- Enter.ConvertIdempotent: sufficient only; the exact condition is that of `ConvertIdempotentIff`.
- The search for the Cygwin root.
- opendir, mkstemp, mkdtemp, stat getters, user and environment helpers.
- The single in-flight error of error.c, and the C++ wrappers other than split.
- The make files, scripts and shell harness are not part of this model.
