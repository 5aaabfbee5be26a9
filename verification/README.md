# Renamer, modelled in Dafny

Renamer is a small command-line tool. It takes three arguments: a directory, a
comma-separated list of extensions and a comma-separated flat list of
replacement tokens (`old1,new1,old2,new2,...`). It walks every file under the
directory and keeps those whose extension ends with one of the configured
extensions, ignoring case, and whose name contains one of the "old" strings.
For each file it keeps, it computes a new name by applying the replacement
rules one after the other. It announces "Renaming X to Y" and moves the file,
unless a file with the new name already exists.

The model has four modules:

- `Strings` (`strings.dfy`) holds the .NET string operations the program
  relies on, over `seq<char>`:
  - `Split` with `RemoveEmptyEntries`;
  - ordinal `Contains`;
  - `String.Replace`, which is leftmost, non-overlapping and ordinal;
  - `EndsWith` with `InvariantCultureIgnoreCase`;
  - `FileInfo.Extension`.

  Each one is characterised by lemmas rather than trusted. For example,
  `Split` is pinned down by the join round trip, the leftmost rule and
  uniqueness, and `Replace` is proved equal to a split followed by a join.
- `Renamer` (`renamer.dfy`) holds the helpers of `Program`:
  - the argument checks of `Main`;
  - `ParseReplacements`;
  - the two filters;
  - `ReplaceCharacters`, an imperative loop proved against the fold
    `ApplyReplacements`.
- `FileSystem` (`filesystem.dfy`) holds the file-system side of `Main`. The
  class `Volume` holds the set of file paths and changes it in place:
  - `RenameFile` is the body of the `Parallel.ForEach`;
  - `RenameAll` is the loop over the selected files;
  - `Run` is all of `Main`.
- `Examples` (`examples.dfy`) holds the behaviour on concrete names,
  derived from the general lemmas.

Model choices:

- Errors are values. `Main` throws two different exceptions, and
  `ArgumentError` keeps them apart as `TooFewArguments` and
  `OddReplacementCount`:
  - `InvalidOperationException("Too few input arguments")`;
  - `ArgumentException("String replacements count must be even")`.

  Both are raised before any file is touched, so `Run` leaves the files
  unchanged on either error.
- The rules produced by parsing always have non-empty old and new strings,
  because empty entries are dropped. So `String.Replace` never sees an empty
  old value, and a rule can never delete text outright.

## Model

| member | source | states |
|---|---|---|
| Strings.Contains | Renamer/Program.cs:41 | the ordinal `String.Contains`, trying a match at every start position; a contained string is never longer than the text |
| Strings.ContainsIffOccursAt | Renamer/Program.cs:41 | `Contains` (the ordinal `String.Contains`) holds exactly when the substring occurs at some index |
| Strings.ShortNotContains | Renamer/Program.cs:41 | a string shorter than the substring cannot contain it |
| Strings.ContainsExtend | Renamer/Program.cs:41 | appending text keeps an occurrence |
| Strings.MissingCharNotContains | Renamer/Program.cs:41 | a string lacking some character of the substring cannot contain it |
| Strings.JoinLength | Renamer/Program.cs:46 | joining n parts adds exactly n-1 separators |
| Strings.Split | Renamer/Program.cs:46 | splitting on a non-empty separator yields at least one part |
| Strings.SplitJoin | Renamer/Program.cs:46 | joining the parts of a split with the separator gives the input back |
| Strings.SplitLeftmost | Renamer/Program.cs:46 | the split cuts at the leftmost, non-overlapping occurrences: no occurrence of the separator begins inside a part |
| Strings.SplitUnique | Renamer/Program.cs:46 | any parts that are separated leftmost and join to the input are the split, so split is fully determined |
| Strings.SplitPartsAvoidSeparator | Renamer/Program.cs:46 | no part of a split contains the separator |
| Strings.RemoveEmpty | Renamer/Program.cs:46 | `RemoveEmptyEntries` keeps exactly the non-empty parts of the input: every kept entry is a non-empty part, and every non-empty part is kept |
| Strings.RemoveEmptyAppend | Renamer/Program.cs:46 | dropping empty entries works piece by piece, so the kept entries stay in their order |
| Strings.RemoveEmptyNoEmpty | Renamer/Program.cs:46 | dropping empty entries from parts that are all non-empty changes nothing |
| Strings.SplitRemovingEmpty | Renamer/Program.cs:18 | every token of a split with `RemoveEmptyEntries` is non-empty and free of the separator |
| Strings.SplitRemovingEmptyWhole | Renamer/Program.cs:18 | a string without the separator is one token, or none when it is empty |
| Strings.SplitJoinRoundTrip | Renamer/Program.cs:46 | non-empty tokens free of a one-character separator, joined and split again, give the same tokens |
| Strings.Replace | Renamer/Program.cs:62 | ordinal `String.Replace` on a non-empty old value; a string in which the old value does not occur comes out unchanged |
| Strings.ReplaceIsSplitJoin | Renamer/Program.cs:62 | `String.Replace` replaces every occurrence, leftmost first and without overlap: it equals splitting on the old value and joining with the new one |
| Strings.OccurrencesIffContains | Renamer/Program.cs:62 | the number of occurrences that are replaced is positive exactly when the old value is contained |
| Strings.ReplaceLength | Renamer/Program.cs:62 | the result length is the input length plus k times (new length minus old length), k the number of occurrences |
| Strings.ReplaceBySelf | Renamer/Program.cs:62 | replacing a value by itself leaves the string unchanged |
| Strings.ReplaceChangesLength | Renamer/Program.cs:62 | when the value occurs and the lengths differ, the length changes |
| Strings.ReplaceChangesText | Renamer/Program.cs:62 | when the value occurs and is replaced by a different string of the same length, the text changes |
| Strings.ReplaceUnchangedIff | Renamer/Program.cs:62 | `Replace` leaves a string unchanged if and only if the old value does not occur or the new value equals it |
| Strings.ReplaceSingleOccurrence | Renamer/Program.cs:62 | a single occurrence between two texts free of it is replaced and the surroundings are kept |
| Strings.EndsWithIgnoreCase | Renamer/Program.cs:70 | `EndsWith(…, InvariantCultureIgnoreCase)` with ASCII folding: a matching suffix is never longer than the text, and an exact suffix always matches |
| Strings.EndsWithIgnoreCaseIff | Renamer/Program.cs:70 | `EndsWith(…, InvariantCultureIgnoreCase)` holds exactly when the case-folded suffix ends the case-folded string |
| Strings.LastIndexOf | Renamer/Program.cs:70 | the index of the last occurrence of a character, or -1; no later position holds it |
| Strings.Extension | Renamer/Program.cs:70 | `FileInfo.Extension` is empty exactly when the name has no '.' or ends with one; otherwise it is the suffix from the last '.', which holds no other '.' |
| Strings.ExtensionOf | Renamer/Program.cs:70 | the extension of `stem.ext` is `.ext` when `ext` is non-empty and has no '.' |
| Renamer.Flatten | Renamer/Program.cs:50-52 | the flat token form of n rules has 2n tokens |
| Renamer.Pairs | Renamer/Program.cs:50-52 | an even token list gives half as many rules, rule i being (token 2i, token 2i+1), in order |
| Renamer.FlattenPairs | Renamer/Program.cs:50-52 | grouping loses no token: flattening the rules gives the tokens back |
| Renamer.PairsFlatten | Renamer/Program.cs:50-52 | grouping the flat form of rules gives the rules back |
| Renamer.FlattenAt | Renamer/Program.cs:50-52 | the old and new strings of rule i sit at positions 2i and 2i+1 of the flat form |
| Renamer.Tokens | Renamer/Program.cs:18 | the tokens of a comma-separated argument are non-empty and comma-free; an argument without a comma is one token, or none when empty |
| Renamer.ParseReplacements | Renamer/Program.cs:44-53 | fails with the odd-count error exactly when the token count is odd; otherwise the rules are the tokens in order, every string non-empty and comma-free |
| Renamer.ParseReplacementsRoundTrip | Renamer/Program.cs:44-53 | writing well-formed rules as a comma-separated list and parsing it gives the same rules |
| Renamer.ParseArguments | Renamer/Program.cs:14-19 | fewer than three arguments is refused first; otherwise it succeeds exactly when the rules parse, with the directory, extension tokens and rules taken from the arguments |
| Renamer.HasAnythingToReplace | Renamer/Program.cs:39-42 | true exactly when some rule's old string occurs in the name |
| Renamer.HasAcceptedExtension | Renamer/Program.cs:68-71 | true exactly when some configured extension ends the file's extension, ignoring case; an empty list accepts nothing |
| Renamer.ApplyReplacements | Renamer/Program.cs:60-63 | the fold of `Replace` over the rules; a name in which no rule's old string occurs comes out unchanged, so the `HasAnythingToReplace` filter drops only names that would stay |
| Renamer.ReplaceCharacters | Renamer/Program.cs:55-66 | the loop returns the left-to-right fold of `Replace` over the rules, each rule acting on the previous result |
| Renamer.ApplyReplacementsAppend | Renamer/Program.cs:60-63 | applying two lists of rules one after the other is applying their concatenation |
| Renamer.WellFormedReplaceable | Renamer/Program.cs:44-53 | parsed rules have non-empty old strings, as `String.Replace` requires |
| FileSystem.Selected | Renamer/Program.cs:23-24 | the two `Where` filters: with no extension or no rule nothing is selected, and with non-empty extension tokens only a file with an extension is |
| FileSystem.SelectFiles | Renamer/Program.cs:21-24 | the selected files are exactly the listed files passing both filters, and stay distinct |
| FileSystem.Destination | Renamer/Program.cs:31 | the new path keeps the directory; a file with nothing to replace is its own destination |
| FileSystem.AfterRename | Renamer/Program.cs:31-35 | after one step the destination exists, every other file is kept, and nothing else appears |
| FileSystem.NotificationsOf | Renamer/Program.cs:26-29 | one notification per processed file, in order, carrying its old name and its new name |
| FileSystem.AfterAll | Renamer/Program.cs:26-36 | after the run every unprocessed file is still there, and every file was there before or is the destination of a processed file |
| FileSystem.RenameKeepsCount | Renamer/Program.cs:31-35 | a rename step keeps the number of files, the destination exists afterwards, and the file stays where it was exactly when the destination was taken |
| FileSystem.AfterAllKeepsCount | Renamer/Program.cs:26-36 | a run over distinct existing files neither loses nor overwrites a file |
| FileSystem.UnselectedUntouched | Renamer/Program.cs:21-36 | a file that is unlisted or that a filter rejects is never moved |
| FileSystem.NotifiedIffProcessed | Renamer/Program.cs:26-29 | each processed file, and nothing else, is announced |
| FileSystem.NotifiedIffSelected | Renamer/Program.cs:21-29 | a notification is produced exactly for the listed files both filters keep |
| FileSystem.CollisionSkipped | Renamer/Program.cs:28-33 | when the destination is taken, nothing moves but the rename is still announced |
| FileSystem.AfterAllStep | Renamer/Program.cs:26-36 | the run from index i is the step for file i followed by the run from i+1 |
| FileSystem.NotificationsStep | Renamer/Program.cs:26-29 | the notifications up to file i are those before it followed by its own |
| FileSystem.RestStayPresent | Renamer/Program.cs:26-36 | the rename step of one file does not move the distinct files still to be processed |
| FileSystem.Volume.RenameFile | Renamer/Program.cs:28-35 | announces (old name, new name), and moves the file unless the destination exists; the number of files is unchanged |
| FileSystem.Volume.RenameAll | Renamer/Program.cs:26-36 | processes the selected files in order; the notifications and the final files are those of the specification functions |
| FileSystem.Volume.Run | Renamer/Program.cs:12-37 | argument errors are reported with no file touched; otherwise every selected file is announced and renamed as specified |
| Examples.ReplaceAllOccurrences | Renamer/Program.cs:62 | "aa" with a→bb gives "bbbb"; "aaa" with aa→b gives "ba" |
| Examples.ChainedRules | Renamer/Program.cs:60-63 | "ab" with a→b, b→c gives "cc", and in the other order gives "bc" |
| Examples.FooBazExample | Renamer/Program.cs:55-66 | "foo_baz.txt" with foo→bar, baz→qux gives "bar_qux.txt" |
| Examples.ReplaceFoo | Renamer/Program.cs:62 | "foo_baz.txt" with foo→bar gives "bar_baz.txt" |
| Examples.ReplaceBaz | Renamer/Program.cs:62 | "bar_baz.txt" with baz→qux gives "bar_qux.txt" |
| Examples.ParseInOrder | Renamer/Program.cs:44-53 | "a,b,c,d" parses to the rules (a,b), (c,d) |
| Examples.ParseOddCount | Renamer/Program.cs:46-48 | "a,b,c" is refused with the odd-count error |
| Examples.EmptyEntriesDropped | Renamer/Program.cs:18 | ",a,,b," gives the tokens "a" and "b": empty entries are dropped |
| Examples.SuffixOfExtensionAccepted | Renamer/Program.cs:70 | "xt" accepts "a.TXT": a case-insensitive suffix match on the extension |
| Examples.OtherExtensionRejected | Renamer/Program.cs:70 | "txt" rejects "a.png" |
| Examples.NoExtensionRejected | Renamer/Program.cs:70 | "txt" rejects a file named "txt", which has no extension |

## Left out

- `Directory.GetFiles`, `FileInfo`, `Path.Combine`, `File.Exists` and `File.Move` are file-system I/O. The listing is a parameter of `Run`: a sequence of (directory, name) paths, each present once. The file system is the set of those paths. A missing or unreadable root directory is not modelled.
- `Parallel.ForEach` runs the rename step concurrently. The model runs the steps one after the other in listing order. The race between two workers that check the same free destination and then both move onto it is therefore not captured. The final file set can also depend on the order in which the workers take the files, even without a race. With the extension `t`, the rule `a,aa` and the files `d/a.t` and `d/aa.t`, the order [a.t, aa.t] ends with {a.t, aaaa.t} and the order [aa.t, a.t] ends with {aa.t, aaaa.t}. `Run` follows the listing order only, but the contracts of `AfterAll` and `NotificationsOf` and the lemmas `AfterAllKeepsCount` and `NotifiedIffProcessed` hold for every order of the files, because they take the processed sequence as an argument.
- `Console.WriteLine` is modelled as the returned sequence of notifications. Output formatting and interleaving are not modelled.
- An exception from `File.Move`, which aborts the run, is not modelled.
- Case folding for `InvariantCultureIgnoreCase` covers ASCII letters only, not full Unicode. Culture-specific comparison details, such as ignorable characters, are also not modelled.
- Strings.Extension: takes the extension of the raw base name, as `FileInfo.Extension` does on Linux and macOS apart from one case. Path separators and volume separators cannot occur in the base name. On Windows, .NET first strips trailing periods and spaces from the name, so "a.b." has ".b" and "a.txt " has ".txt" there, while the model gives "" and ".txt ". On other platforms .NET gives "." for a name ending in '.', while the model gives "". All these differences arise only for names ending in '.' or ' '.
- FileSystem.Destination / FileSystem.Volume.RenameFile: the destination is the same directory with the new name. When the new name contains a directory separator (`/`, and on Windows also `\`), `Path.Combine` puts the destination elsewhere: in a subdirectory, in the parent directory through `..`, or, for a new name that starts with a separator, at that absolute path itself. `File.Exists` and `File.Move` then act on that other place, and the model may move a file that the program would skip, or the reverse. On Linux and macOS `\` is an ordinary file-name character, and there the model's destination is exact. Paths are also compared exactly, so on a case-insensitive file system a case-only rule such as `a,A` makes `File.Exists` find the file itself and the program skip it, while the model moves it.
- Strings are sequences of Unicode scalar values, while .NET's ordinal `Split`, `Contains` and `Replace` compare UTF-16 code units and `string.Length` counts code units. The two agree on well-formed text. A name or token holding an unpaired surrogate, legal on Windows, cannot be expressed in the model, and the lengths in `ReplaceLength` count scalar values, not code units.
- The unused `oldStrings` and `newStrings` locals of `ReplaceCharacters` have no behaviour and are not modelled.
- The extension tokens are not checked further, exactly as in `Main`.
- FileSystem.Volume.RenameAll: does not repeat the file count in its own contract. `AfterAllKeepsCount` proves the count of the files it ends with.
