# Word counter: a Dafny model of the indexer core

The word counter reads every `*.txt` file under a directory and counts how
often each word occurs. Its core is the indexer, `IndexDirectory`:

- It keeps an occurrence table and an exclusion table, both mapping a word
  to a `Count`.
- It tokenises each line. The line is trimmed, then split at runs of
  non-word characters (`[^\w]+`). Empty pieces are dropped, and each piece
  is uppercased and trimmed.
- Each token is routed. An excluded word only has its exclusion count
  bumped. Any other word has its occurrence count created at 0 if it is
  absent, and then incremented.
- On output, the occurrence table is grouped by the first character of each
  word. Each group is ordered by word and written as lines `<WORD> <COUNT>`.

This project models that core sequentially and proves it correct against
functions on values. The modules are:

- `Words` (`words.dfy`): word characters, uppercasing, `Trim`, `Regex.Split`
  on `[^\w]+`, and the tokens of a line or text.
- `Counter` (`counter.dfy`): the `Count` class and the decimal rendering
  used by `ToString`.
- `DiskFormat` (`disk_format.dfy`): both `ToDisk` overloads, and reading a
  written line back.
- `Ordering` (`ordering.dfy`): ordinal string order, and the sort of a
  group by key.
- `Grouping` (`grouping.dfy`): the letter groups and the files `Persist`
  writes.
- `Indexing` (`indexing.dfy`): the specification of indexing. It routes one
  token (`Route`), folds routing over the tokens of lines, files and a
  corpus, and excludes words.
- `Indexer` (`index_directory.dfy`): the class `IndexDirectory`. It has
  map fields `occurrences` and `excluded`, updated in place by methods
  proved against the `Indexing` functions.
- `Wrappers` (`wrappers.dfy`): `Option`.

## Model

| member | source | states |
|---|---|---|
| Words.Upper | WordCounter/IndexDirectory.cs:75 | `ToUpper` keeps the length and leaves no lowercase letter. Word characters and white space keep their class. An already uppercase string is unchanged. |
| Words.UpperIdempotent | WordCounter/IndexDirectory.cs:75 | Uppercasing twice is the same as uppercasing once. |
| Words.Trim | WordCounter/IndexDirectory.cs:73 | `Trim` never lengthens. Its result is empty or neither starts nor ends with white space. |
| Words.TrimRemovesOnlyEnds | WordCounter/IndexDirectory.cs:73 | `Trim` removes white space at the two ends and nothing else. The result is a middle slice of the input, with only white space before and after it. |
| Words.TrimKeepsWordChars | WordCounter/IndexDirectory.cs:73 | Trimming removes no word character. |
| Words.TrimWord | WordCounter/IndexDirectory.cs:75 | A run of word characters has nothing to trim, so the `.Trim()` after `ToUpper()` never changes a split piece. |
| Words.Normalize | WordCounter/IndexDirectory.cs:75-77 | For a split piece, `ToUpper().Trim()` is the uppercased piece. It is empty exactly when the piece is. A non-empty result is a normal word: non-empty, word characters only, uppercase. |
| Words.Split | WordCounter/IndexDirectory.cs:73 | `Regex.Split` on `[^\w]+` yields at least one piece, and every piece holds word characters only. |
| Words.SplitIsJoin | WordCounter/IndexDirectory.cs:73 | Every string is its pieces joined by its separators. The separators are non-empty runs of non-word characters, and only the first and last pieces may be empty. So the pieces are exactly the maximal runs of word characters, in order. |
| Words.SplitJoin | WordCounter/IndexDirectory.cs:73 | Splitting word runs joined by any non-empty separators of non-word characters gives back exactly those runs. This includes the empty first or last piece that a separator at the start or end leaves. |
| Words.SplitKeepsWordChars | WordCounter/IndexDirectory.cs:73 | Splitting loses and invents no word character. The pieces concatenated are the input's word characters, in order. |
| Words.NonEmpty | WordCounter/IndexDirectory.cs:31 | `Where(word => word != string.Empty)` keeps every non-empty piece and nothing else. |
| Words.NonEmptyAppend | WordCounter/IndexDirectory.cs:31 | The filter works piece by piece, keeping order: filtering two lists joined is joining the two filtered lists. |
| Words.NonEmptyKeeps | WordCounter/IndexDirectory.cs:31 | The filter keeps the pieces' concatenation. It keeps no empty piece, and keeps each non-empty piece as often as it occurs. |
| Words.Tokens | WordCounter/IndexDirectory.cs:28-31 | Every token of a text is a non-empty run of word characters. |
| Words.TokensKeepWordChars | WordCounter/IndexDirectory.cs:28-31 | The tokens of a text, concatenated, are exactly its word characters in order. With `SplitIsJoin`, this fixes the tokens as the text's maximal word runs. |
| Counter.Decimal | WordCounter/Count.cs:20 | A count renders as at least one digit, only digits, with no leading zero unless the count is 0. |
| Counter.DecimalRoundTrip | WordCounter/Count.cs:20 | Parsing the rendered digits gives back the count. |
| Counter.DecimalInjective | WordCounter/Count.cs:20 | Two counts render alike exactly when they are equal. |
| Counter.Count.constructor | WordCounter/Count.cs:11 | A fresh counter holds 0 and renders as "0". |
| Counter.Count.Increment | WordCounter/Count.cs:13-16 | The count rises by exactly one, so it never decreases. |
| Counter.Count.ToString | WordCounter/Count.cs:18-21 | The current count as a plain decimal integer, which parses back to the count. There is no leading zero: a string starting with `0` is exactly `"0"`, for count 0. |
| Counter.RenderAfterIncrements | WordCounter/Count.cs:11-21 | After n increments from fresh, `ToString` is the decimal form of n. |
| DiskFormat.ToDisk | WordCounter/DictionaryExtension.cs:12-19 | One line per entry, in enumeration order. An empty dictionary gives no lines. Line k is exactly entry k's key, one space and its value in decimal, for every key, including one with spaces. When the key has no space, line k parses back to entry k. |
| DiskFormat.Line | WordCounter/DictionaryExtension.cs:18 | `$"{result.Key} {result.Value}"` is the key, one space and the value in decimal. `LineRoundTrip` shows this reads back when the key has no space. |
| DiskFormat.LineRoundTrip | WordCounter/DictionaryExtension.cs:18 | For a key without spaces, splitting `"{Key} {Value}"` at its first space recovers the key and the value. |
| DiskFormat.ToDiskRoundTrip | WordCounter/DictionaryExtension.cs:16-18 | When no key has a space, reading a written file back gives exactly the entries written, in order, none missing or extra. |
| DiskFormat.EntriesOf | WordCounter/DictionaryExtension.cs:29 | Enumerating a dictionary lists each of its pairs exactly once, and nothing else. |
| DiskFormat.CopyOfEnumeration | WordCounter/DictionaryExtension.cs:29 | Copying an enumerated concurrent dictionary into a `Dictionary` never fails, because no key repeats. The copy holds the same pairs in the same order. |
| DiskFormat.ToDiskConcurrent | WordCounter/DictionaryExtension.cs:26-30 | The concurrent overload writes the same lines as the plain overload on a copy: one line per entry of the table. The line of a key without spaces parses back to its pair. |
| Ordering.Less | WordCounter/IndexDirectory.cs:53 | The key comparison `OrderBy(x => x.Key)` uses is ordinal, character by character, with a proper prefix first. `LessIrreflexive`, `LessAsymmetric`, `LessTransitive` and `LessTotal` make it a strict total order. |
| Ordering.LessIrreflexive | WordCounter/IndexDirectory.cs:53 | No key sorts before itself. |
| Ordering.LessAsymmetric | WordCounter/IndexDirectory.cs:53 | Two keys never sort before each other. |
| Ordering.LessTransitive | WordCounter/IndexDirectory.cs:53 | The key order is transitive. |
| Ordering.LessTotal | WordCounter/IndexDirectory.cs:53 | Any two different keys are ordered one way or the other. |
| Ordering.Insert | WordCounter/IndexDirectory.cs:53 | Inserting adds exactly the one entry. An absent key inserted into an ascending list keeps it ascending. |
| Ordering.SortByKey | WordCounter/IndexDirectory.cs:53 | `OrderBy(x => x.Key)` returns a permutation of its input. The result is strictly ascending by key when no key repeats. |
| Ordering.AscendingUnique | WordCounter/IndexDirectory.cs:53 | Two ascending lists holding the same entries are identical, so a sorted group does not depend on its input order. |
| Grouping.GroupKey | WordCounter/IndexDirectory.cs:47 | `Key[..1]` is the one-character string holding the key's first character. |
| Grouping.GroupKeys | WordCounter/IndexDirectory.cs:47 | The group keys are distinct. Every entry's first character is one of them, and each of them is some entry's first character. |
| Grouping.Members | WordCounter/IndexDirectory.cs:47 | A group's members are exactly the entries whose first character is its key. |
| Grouping.LetterGroups | WordCounter/IndexDirectory.cs:45-53 | There is one group per group key, in `GroupKeys` order. Each group holds a permutation of its members, sorted by key. `LetterGroupContents` pins the members and their order. |
| Grouping.WriteAll | WordCounter/IndexDirectory.cs:50-56 | One file per group, in order, named by the group's key, with one line per entry of the group. |
| Grouping.Persist | WordCounter/IndexDirectory.cs:45-56 | There is one file per letter group, named by its key. `PersistRoundTrip` gives the files' contents. |
| Grouping.LetterGroupKeysDistinct | WordCounter/IndexDirectory.cs:45-47 | No two letter groups share a key. |
| Grouping.LetterGroupsCover | WordCounter/IndexDirectory.cs:45-47 | Every entry has the group keyed by its first character. |
| Grouping.LetterGroupContents | WordCounter/IndexDirectory.cs:45-53 | A group holds exactly the entries whose first character is its key, so each entry is in exactly one group. The group is ascending by key. |
| Grouping.PersistRoundTrip | WordCounter/IndexDirectory.cs:50-55 | One file per group, named by the group's key. When no key has a space, reading a file back gives that group's entries in ascending key order. |
| Grouping.LookupPersist | WordCounter/IndexDirectory.cs:50-55 | The file for key g exists exactly when some word starts with g. It holds the sorted entries of that group. |
| Grouping.SameSortedMembers | WordCounter/IndexDirectory.cs:47-53 | Two listings of the same entries give each group the same sorted members. |
| Grouping.PersistOrderIndependent | WordCounter/IndexDirectory.cs:45-55 | Every output file is the same whatever order the concurrent dictionary enumerates its pairs in. |
| Indexing.Route | WordCounter/IndexDirectory.cs:78-81 | An excluded token raises only its exclusion count, by one, and never enters the occurrence table. Any other token gets its entry created at 0 if absent and raised by exactly one. No other entry changes, and the exclusion keys never change. |
| Indexing.RecordAll | WordCounter/IndexDirectory.cs:73-82 | Routing tokens in order never changes the exclusion keys and never drops an occurrence key. Every routed token ends up a key of one of the two tables. `RecordAllCounts` gives the exact counts. |
| Indexing.RecordAllCounts | WordCounter/IndexDirectory.cs:78-81 | After routing a token list, each exclusion count has grown by the key's number of occurrences. Each other word's occurrence count has grown by its number of occurrences, and it has an entry exactly when it had one or occurs. |
| Indexing.RecordAllReorder | WordCounter/IndexDirectory.cs:78-81 | Routing tokens in any order gives the same tables. |
| Indexing.RecordAllWellFormed | WordCounter/IndexDirectory.cs:75-80 | Routing normal words keeps every occurrence key a normal word and every exclusion key uppercase. |
| Indexing.WordOf | WordCounter/IndexDirectory.cs:75-77 | A split piece contributes its uppercased form, or nothing when the piece is empty. |
| Indexing.LineWords | WordCounter/IndexDirectory.cs:73-77 | Every word counted from a line is non-empty, word characters only, and uppercase. |
| Indexing.LineWordsAreUppercasedTokens | WordCounter/IndexDirectory.cs:73-77 | The words indexed for a line are its tokens uppercased, in order. |
| Indexing.FileWords | WordCounter/IndexDirectory.cs:67-77 | Every word counted from a file is a normal word. |
| Indexing.CorpusWords | WordCounter/IndexDirectory.cs:17-24 | Every word counted from the corpus is a normal word. |
| Indexing.CorpusWordsReorder | WordCounter/IndexDirectory.cs:19-22 | Processing the files in another order gives the same words, as a multiset. |
| Indexing.IndexFiles | WordCounter/IndexDirectory.cs:17-24 | Indexing every line of every file keeps the exclusion keys and never drops an occurrence key. `IndexCounts` gives the exact counts. |
| Indexing.IndexCounts | WordCounter/IndexDirectory.cs:17-24 | After indexing, each non-excluded word's count is its start count plus its number of normalised occurrences over all lines of all files. Each excluded word's count grows by its occurrences, and the exclusion keys are unchanged. |
| Indexing.IndexWellFormed | WordCounter/IndexDirectory.cs:47 | After indexing every occurrence key is non-empty and uppercase, so `Key[..1]` is defined. |
| Indexing.IndexOrderIndependent | WordCounter/IndexDirectory.cs:19-22 | The final tables do not depend on the order in which the files are processed. |
| Indexing.ExcludeAll | WordCounter/IndexDirectory.cs:32-33 | Excluding words one after another keeps every earlier exclusion key and makes every uppercased word a key. `ExcludeAllEffect` gives the exact table. |
| Indexing.ExcludeAllEffect | WordCounter/IndexDirectory.cs:26-41 | Excluding words adds each uppercased word with count 0, overwriting an earlier count. Every other entry is left alone. |
| Indexing.ExcludeAllWellFormed | WordCounter/IndexDirectory.cs:39 | Excluding words keeps every exclusion key uppercase. |
| Indexer.IndexDirectory.constructor | WordCounter/IndexDirectory.cs:8-15 | A new indexer has its path and two empty tables. |
| Indexer.IndexDirectory.Exclude | WordCounter/IndexDirectory.cs:37-41 | The uppercased word gets count 0, replacing any count it had. The occurrence table is unchanged. |
| Indexer.IndexDirectory.ExcludeFile | WordCounter/IndexDirectory.cs:26-35 | The exclusion table becomes the old one with every token of the trimmed text excluded in order (`ExcludeAll`). The occurrence table is unchanged. |
| Indexer.IndexDirectory.IsFilteredWord | WordCounter/IndexDirectory.cs:86-91 | Returns whether the word is an exclusion key. If so only its exclusion count rises by one; otherwise nothing changes. |
| Indexer.IndexDirectory.IndexPiece | WordCounter/IndexDirectory.cs:75-81 | One split piece updates the tables exactly as routing its normalised form (`Route`), or not at all when that form is empty. |
| Indexer.IndexDirectory.IndexPieces | WordCounter/IndexDirectory.cs:73-82 | The pieces of a line are routed in order. |
| Indexer.IndexDirectory.IndexLine | WordCounter/IndexDirectory.cs:69-82 | A line's tokens (`LineWords`) are routed in order. |
| Indexer.IndexDirectory.IndexFile | WordCounter/IndexDirectory.cs:64-84 | The tables become the old ones with the file's words routed line after line (`RecordAll` over `FileWords`). |
| Indexer.IndexDirectory.Index | WordCounter/IndexDirectory.cs:17-24 | The tables become the old ones with every word of every file routed (`IndexFiles`). `IndexCounts` gives the resulting counts. |
| Indexer.IndexDirectory.Persist | WordCounter/IndexDirectory.cs:43-57 | The files written are `Grouping.Persist` of the occurrence table's pairs, whose partition and order are proved in `Grouping`. The grouping key is always defined. There is one file per letter group, named by its key. Every file reads back to exactly that group's sorted entries, because occurrence keys are words and hold no space. |
| Indexer.WriteLetterGroups | WordCounter/IndexDirectory.cs:50-56 | The loop over the letter groups writes, for each group in order, a file named by its key holding its `ToDisk` lines. |
| Indexer.IndexDirectory.PersistExcludeStats | WordCounter/IndexDirectory.cs:59-62 | One line per exclusion entry, in enumeration order. The line of a word without spaces parses back to that word and its count. An excluded word may hold a space, since `Exclude` stores any uppercased string. |
| Indexer.OccurrenceEntriesGroupable | WordCounter/IndexDirectory.cs:47-55 | Every occurrence key has a first character to group by and contains no space, so its written line parses back. |

## Left out

- Parallelism and atomics are not modelled. This covers `AsParallel().ForAll` over the files, `Interlocked.Increment` and the thread-safety of `ConcurrentDictionary`. Files are indexed one after another, and `Indexing.IndexOrderIndependent` shows that the order of the files does not change the result.
- File system access is not modelled. A file is given as its sequence of lines, an exclusion file as its text, and an output file as a name and its lines. This covers `Directory.EnumerateFiles`, `File.OpenText`, `ReadLine`, `File.ReadAllText`, `Directory.CreateDirectory` and `StreamWriter`. The `line == null` check in `IndexFile` therefore has no counterpart.
- Output paths are not modelled. This covers the `results/` directory, the `.txt` suffix and the `excluded-stats.txt` name; a file carries only its group key.
- The .NET regular expression engine, culture-sensitive `ToUpper` and the culture-sensitive string comparison of `OrderBy` are not modelled. `\w` is taken as the ASCII letters, digits and `_`. Uppercasing maps only `a`–`z`. `Trim` removes the space and U+0009 to U+000D. Keys are ordered by ordinal character order.
- Counter.Count.Increment: does not model the 32-bit wrap-around of `_count`; counts are unbounded naturals.
- The `Count` objects held in the two dictionaries are modelled as their current values (`nat`), not as shared references.
- A `Dictionary` built by `ToDictionary` is taken to enumerate its pairs in insertion order. This affects the sorted list copied at IndexDirectory.cs:54 and the copy at DictionaryExtension.cs:29. .NET leaves that order unspecified; the runtime keeps insertion order when nothing is removed. The claim that each group file is in ascending key order rests on it.
- The order in which a `ConcurrentDictionary` enumerates its pairs is chosen by the runtime. It is a parameter of `Persist`, `PersistExcludeStats` and `ToDiskConcurrent`, constrained to list every key exactly once.
- `Index`, `Exclude` and `ExcludeFile` return `this` for chaining. The model's methods return nothing.
- `WordCounter/Program.cs` (argument checks and console messages) is not part of this model. It calls `ExcludeFromFile` and `SaveStats`, which `IndexDirectory` does not define; the model follows the methods as `IndexDirectory.cs` defines them.
- `PersistExcludeStats` is modelled as the code writes it: it writes the exclusion table whether or not it is empty, and to the working directory, not the results directory.
