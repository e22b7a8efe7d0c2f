# go-envdata, modelled in Dafny

`go-envdata` is a Go code generator. It takes a snapshot of the process
environment and writes a Go source file. That file holds the snapshot as a
`defaults` map literal. Its `init` function then sets every variable that is
unset or empty in the running program to its captured value. Only one file,
`main.go`, makes up the program.

The model follows `main.go`'s structure:

- `Configuration` holds the `Config` record and `NewDefaultConfig`.
- `EnvCapture` holds the capture loops of `Transcribe`:
  - the ignore set: the words of `-ignore` plus `PWD`, `SHLVL`, `_` and `PATH`;
  - an entry's name: the text before its first `=`;
  - the `os.Getenv` lookup;
  - `CaptureEnvironment`, an imperative method over a `map<string, bool>` and a `map<string, string>`.
- `GoStrings` holds `strings.Fields`, `strings.Join` and Go's `<` on strings.
- `GoSort` holds `sort.Strings`, an in-place sort of an `array<string>` proved sorted and a permutation.
- `GoQuote` holds `%q` quoting, a parser that undoes it, and the round trip between them.
- `Emitter` holds `writeRelease` and `writeDev`, the template with its package holes, and a reader of the map literal's body (`ParseDefaults`) used to prove the body round-trips to the captured map.
- `Driver` holds `Transcribe` without its output plumbing.
- `Consumer` holds the `setDefaultEnv` function of the generated file, as a `Process` class whose `env` map the method updates in place.

The environment is a parameter (`environ: seq<string>`, the entries in
`os.Environ()` order). `os.Getenv` is modelled the way Go's Unix runtime
answers it: it takes the first entry that contains `=` and has that name, and
returns "" for an empty key or when no entry matches. The generated text is
returned instead of being written out.

Two details of capture follow from the code rather than from any comment in it:

- A name that occurs twice is captured once, with what `os.Getenv` returns for it: the value of the first entry that holds `=` and has that name (main.go:106-109).
- An entry without `=` is captured under its whole text, with `os.Getenv`'s value for that name. That value is "" unless some entry holding `=` defines the name.

`os.Setenv` on Unix refuses, with EINVAL and without changing anything, an empty name, a name holding `=` or NUL, and a value holding NUL. `setDefaultEnv` ignores that error (main.go:82), and `Consumer` models it. So a default captured from an entry such as `=x`, which has the empty name, is never set.

Two behaviours of `Transcribe` are noted here and are not part of the model
(see "Left out"):

- When `os.Create` fails, it returns `nil` rather than the error (main.go:118-120).
- It discards the errors returned by `writeRelease` and `writeDev` (main.go:128-132).

## Model

| member | source | states |
|---|---|---|
| Configuration.NewDefaultConfig | main.go:30-34 | the default configuration has package `env`, no output file, an empty ignore list and dev mode off |
| GoStrings.Fields | main.go:96 | every field is non-empty and holds no white space |
| GoStrings.FieldsSplit | main.go:96 | splitting at a white-space character splits the fields: `Fields(a + [c] + b) == Fields(a) + Fields(b)` |
| GoStrings.FieldsOfWord | main.go:96 | a non-empty word without white space is its own single field |
| GoStrings.WordIsField | main.go:96-100 | a word written between spaces in the `-ignore` text is one of its fields |
| GoStrings.WordHeadsFields | main.go:96 | a word followed by white space or by nothing is a field of the text |
| GoStrings.FieldsAfterSpace | main.go:96 | text that ends in white space keeps every field of what follows it as a field |
| EnvCapture.IgnoreSet | main.go:96-103 | every built-in name is ignored, and every ignored name is a built-in one or a non-empty word without white space |
| EnvCapture.Name | main.go:106 | the key is the longest prefix of the entry that holds no `=`, and is followed by `=` when it is shorter than the entry |
| EnvCapture.Value | main.go:107 | for an entry holding `=`, key, `=` and value give back the entry; without `=` the value is "" |
| EnvCapture.Defines | main.go:106-107 | whether an entry holds `=` and binds a name to a value (a predicate used by the lookup contracts) |
| EnvCapture.EntryLookup | main.go:107 | a non-empty result is the value of some entry that holds `=` and has the name |
| EnvCapture.GetenvFrom | main.go:107 | `os.Getenv`: "" for the empty name, and a non-empty result is the value of some entry holding `=` with that name |
| EnvCapture.Captured | main.go:104-111 | after any prefix of the entries, the map holds no ignored name and every value is `os.Getenv` of its key |
| EnvCapture.Snapshot | main.go:104-111 | the captured map's keys are exactly the environment's names minus the ignore set, and each value is `os.Getenv` of its key |
| EnvCapture.CaptureEnvironment | main.go:96-111 | the three loops build exactly the captured map `Snapshot(environ, IgnoreSet(ignore))` |
| EnvCapture.CapturedKeys | main.go:104-111 | the captured keys are the names of the environment minus the ignore set, and each captured value is `os.Getenv` of its key |
| EnvCapture.IgnoredNotCaptured | main.go:108 | no ignored name is captured |
| EnvCapture.EntryCaptured | main.go:105-110 | the name of every entry outside the ignore set is captured |
| EnvCapture.GetenvIsSuffix | main.go:107 | when no earlier entry holding `=` has the same name, `os.Getenv` of an entry's name is the text after its first `=` |
| EnvCapture.GetenvUnset | main.go:107 | `os.Getenv` of a name no entry defines is "" |
| EnvCapture.DefaultIgnoreSet | main.go:28 | with the default configuration, exactly `PWD`, `SHLVL`, `_` and `PATH` are ignored |
| EnvCapture.ListedNameIgnored | main.go:96-100 | a word of the `-ignore` option is ignored wherever it stands: first, last or in the middle, with any white space around it |
| EnvCapture.IgnoreExample | main.go:96-111 | with entries `FOO=1`, `BAR=2`, `PWD=/tmp` and `-ignore FOO`, the captured map is exactly `BAR` to `2` |
| EnvCapture.IgnoreOfFoo | main.go:96-103 | the ignore set of `-ignore FOO` is `FOO` and the four always-ignored names |
| EnvCapture.NamesOfExample | main.go:105-106 | the names of the example entries are `FOO`, `BAR` and `PWD` |
| EnvCapture.ExampleDifference | main.go:108 | of the example names `FOO`, `BAR`, `PWD`, only `BAR` is outside the ignore set of `-ignore FOO` |
| GoQuote.HexDigit | main.go:58 | the hex digit of a value below 16 reads back as that value |
| GoQuote.EscapeChar | main.go:58 | one character's escape is 1 to 4 characters long and holds no ASCII control character |
| GoQuote.EscapeBody | main.go:58 | the escaped text holds no ASCII control character |
| GoQuote.ParseBody | main.go:58 | reads the inside of a quoted literal up to its closing quote; what it leaves is shorter than its input |
| GoQuote.ParseBodyRest | main.go:58 | what a successful read leaves is a suffix of the input that comes right after a closing quote |
| GoQuote.AfterQuoteInSuffix | main.go:58 | what follows a closing quote at the end of a suffix of the input also follows one at the end of the input |
| GoQuote.Unquote | main.go:58 | only text that starts and ends with a double quote unquotes |
| GoQuote.Quote | main.go:58 | `%q` text starts and ends with a double quote and holds no newline |
| GoQuote.ParseEscapedChar | main.go:58 | reading one escaped character gives back that character ahead of whatever follows |
| GoQuote.ParseEscapeBody | main.go:58 | reading an escaped body up to the closing quote gives back the original text and the rest |
| GoQuote.ParseQuote | main.go:58 | reading `%q` text followed by anything gives back the original string and the rest |
| GoQuote.UnquoteQuote | main.go:58 | unquoting `%q` text gives back the original string |
| GoQuote.QuoteInjective | main.go:58 | two strings with the same `%q` text are equal |
| GoQuote.QuoteExample | main.go:58 | `%q` of `a"b\c` is `"a\"b\\c"` |
| GoStrings.LessIrreflexive | main.go:60 | no string sorts before itself |
| GoStrings.LessTransitive | main.go:60 | Go's `<` on strings is transitive |
| GoStrings.LessTrichotomy | main.go:60 | any two strings are equal or one sorts before the other |
| GoStrings.LessAsymmetric | main.go:60 | two strings never sort before each other both ways |
| GoStrings.LessCommonPrefix | main.go:60 | a common prefix keeps the order of two strings |
| GoStrings.LessEqTransitive | main.go:60 | `<=` on strings is transitive |
| GoStrings.LessEqAntisymmetric | main.go:60 | strings that are `<=` each other are equal |
| GoStrings.Less | main.go:60 | Go's `<` on strings: defined by comparing characters from the front; its order laws are the lemmas around it |
| GoStrings.LessIsLexicographic | main.go:60 | `Less` is exactly lexicographic order: a proper prefix, or agreement up to a position where the first string has the smaller character |
| GoSort.AdjacentSortedIsSorted | main.go:60 | a sequence ordered at every neighbouring pair is ordered at every pair |
| GoSort.SortStrings | main.go:60 | `sort.Strings` leaves the array in ascending order and holds the same strings as before |
| GoSort.InsertLast | main.go:60 | one insertion step extends the ordered prefix by one element, keeps the array's contents and leaves everything after that element untouched |
| GoSort.SwapKeepsInserting | main.go:60 | swapping the inserted string past a larger one keeps the insertion invariant, one position further left |
| GoSort.InsertingDone | main.go:60 | when the inserted string cannot move further, the prefix up to it is in order |
| GoSort.SortedUnique | main.go:60 | two sorted sequences with the same elements are equal, so the sorted output does not depend on the input order |
| GoSort.MinExists | main.go:60 | a non-empty set of strings has a least element |
| GoSort.SortedOf | main.go:60 | there is a sorted sequence holding exactly the strings of any finite set |
| GoStrings.JoinTerminated | main.go:61 | joining lines with newlines and adding one newline ends every line with a newline |
| GoStrings.JoinThree | main.go:61 | three lines are joined as the first, newline, the second, newline, the third |
| GoStrings.Join | main.go:61 | `strings.Join`: "" for no elements, and otherwise the result starts with the first element |
| Emitter.DefaultsMapExpr | main.go:52-62 | the body is empty exactly when the map is empty |
| Emitter.Line | main.go:58 | defined as a tab, `%q` of the key, `: `, `%q` of the value and a comma; ParseLine, LineInjective and LineIsOneLine state its properties |
| Emitter.Header | main.go:64-72 | the file's head is fixed text with the package name in exactly three places (206 fixed characters plus three copies) |
| Emitter.DefaultsDecl | main.go:73 | the declaration of `defaults` holds the map body exactly between its braces |
| Emitter.Template | main.go:64-86 | the file starts with the header and ends with the `init` and `setDefaultEnv` code of main.go:75-85 |
| Emitter.TemplateBody | main.go:64-86 | reading a file back: any body it finds refills the template into exactly that file |
| Emitter.TemplateSplit | main.go:64-86 | the template is the header and the declaration opening, then the body, then the declaration close and the initializer |
| Emitter.TemplateRoundTrip | main.go:64-86 | reading a generated file back gives the body it was filled with |
| Emitter.RenderEntries | main.go:56-59 | the loop over the map yields each entry's line exactly once, in some order |
| Emitter.WriteRelease | main.go:51-91 | the file is the template filled in with the package name and the sorted lines of `env`, whatever order the map was visited in |
| Emitter.WriteDev | main.go:47-49 | the dev file is the release file of an empty map |
| Emitter.ParseLine | main.go:58 | reading an entry line followed by a newline gives back its key and value and the rest |
| Emitter.LineInjective | main.go:58 | two entries with the same line have the same key and value |
| Emitter.LineIsOneLine | main.go:58 | an entry's line holds no newline |
| Emitter.AddLine | main.go:57-59 | one more entry adds its line to the lines seen so far, and the line was not among them |
| Emitter.SortedLinesSpec | main.go:56-60 | the sorted lines are in order, hold each entry's line once and hold nothing else |
| Emitter.DefaultsFromAnyOrder | main.go:56-61 | any sorted sequence of the map's lines gives the same body |
| Emitter.ParseEntriesStep | main.go:58-61 | reading a line ahead of read lines adds its entry to the map read from them |
| Emitter.ParseLines | main.go:58-61 | reading newline-terminated lines of `env` gives back the entries of those lines |
| Emitter.SortedLinesElems | main.go:56-60 | the sorted lines hold exactly the map's lines, and their entries make up the whole map |
| Emitter.SameElems | main.go:56-60 | a sequence with the same multiset of elements as a set has exactly that set of elements |
| Emitter.EntriesOfAllLines | main.go:56-60 | the entries of a list holding exactly the map's lines make up the whole map |
| Emitter.ParseWrapped | main.go:61 | the body written with its leading and trailing newline reads as its lines |
| Emitter.DefaultsRoundTrip | main.go:52-62 | reading the body of the map literal gives back the map it was written from |
| Emitter.EmptyDefaults | main.go:47-54 | an empty map gives `var defaults = map[string]string{}` and the rest of the template unchanged |
| Emitter.OneEntry | main.go:56-61 | a one-entry map gives its line between two newlines |
| Emitter.OrderExample | main.go:56-61 | entries `B`, `A`, `C` come out in the order `A`, `B`, `C` |
| Emitter.ThreeSortedLines | main.go:60-61 | three distinct lines in order give the body newline, line, newline, line, newline, line, newline |
| Emitter.ExampleLinesSorted | main.go:58-60 | the lines of `A`, `B` and `C` are in ascending order and pairwise distinct |
| Emitter.ExampleLineSet | main.go:56-59 | the example map has exactly the lines of `A`, `B` and `C` |
| Emitter.OneCharKeyLineStart | main.go:58 | the line of a one-character key is a tab, a quote and then the key |
| Emitter.LineOrderIsNotKeyOrder | main.go:58-60 | lines are sorted by their quoted text, not by key: `A` comes before `A!`, but the line of `A!` comes before the line of `A` |
| Driver.Transcribe | main.go:94-134 | the text written is the dev file in dev mode, and otherwise the release file of the environment captured without the ignored names |
| Driver.DevIsEmptyRelease | main.go:47-49 | in dev mode the output does not depend on the environment and equals the release file of an empty one |
| Driver.ReleaseDefaults | main.go:96-111 | the release file's defaults read back as the captured map: every non-ignored name with its `os.Getenv` value, and no ignored name |
| Driver.GeneratedReadsBack | main.go:94-134 | the whole output file reads back: the template's body is found and parses to the captured map, or to the empty map in dev mode |
| Consumer.EnvLookup | main.go:81 | `os.Getenv`: a non-empty result is the variable's value, and the empty name always reads as "" |
| Consumer.Seeded | main.go:79-85 | the environment after `setDefaultEnv` keeps every variable it had and adds only names that have defaults |
| Consumer.Process.Getenv | main.go:81 | a non-empty result is the value of that variable in the process |
| Consumer.Process.Setenv | main.go:82 | `os.Setenv` reports success exactly when Unix accepts the name and value; then it sets that one variable, and otherwise it changes nothing |
| Consumer.Process.SetDefaultEnv | main.go:79-85 | after the loop the environment is `Seeded(old env, defaults)`, whatever order the map was visited in |
| Consumer.SeededStep | main.go:80-84 | handling one more key of the defaults sets that variable to its default when it reads as "" and `os.Setenv` accepts the pair, and otherwise changes nothing |
| Consumer.SeededFillsEmpty | main.go:81-82 | a variable that is unset or empty gets its default when `os.Setenv` accepts the pair |
| Consumer.SeededKeepsSet | main.go:81 | a variable that is already set to something non-empty keeps its value |
| Consumer.SeededOutsideDefaults | main.go:80-84 | a variable without a default, or whose default `os.Setenv` refuses, is left as it was |
| Consumer.EmptyNameNeverSet | main.go:79-85 | a default with the empty name, as captured from an entry `=x`, leaves the environment unchanged |
| Consumer.SeededIdempotent | main.go:79-85 | running `setDefaultEnv` twice gives the same environment as running it once |

## Left out

- Flag parsing (`parseArgs`, main.go:36-45) is not modelled. A `Config` value is taken as given.
- Reading the real process environment is not modelled. `os.Environ()` is the parameter `environ`.
- `os.Getenv` follows Go's Unix runtime lookup. Other platforms are not modelled.
- Output plumbing is not modelled: stdout, `os.Create`, `bufio`, `Flush`, `Close` and the write errors of `fmt.Fprintf` (main.go:64, 86-90, 113-126). The methods return the text instead.
- `Transcribe` returns `nil` when `os.Create` fails (main.go:118-120) and discards the errors of `writeRelease` and `writeDev` (main.go:128-132). The model returns only the text, so neither is represented.
- `main` and its exit path (main.go:136-142) are not modelled.
- GoQuote.EscapeChar: non-ASCII characters are always written literally. Go escapes non-printable non-ASCII characters with `\u` or `\U` and escapes invalid UTF-8 bytes. Unicode printability and invalid UTF-8 are not modelled.
- GoQuote.ParseBody: accepts only the simple escapes `\a \b \f \n \r \t \v \\ \"` and `\x` with a first hex digit below 8. It does not accept octal, `\u` or `\U` escapes, nor `\'`. It is the partner of `Quote`, not a full `strconv.Unquote`.
- GoSort.SortStrings: an insertion sort, not Go's pattern-defeating quicksort. Only "sorted and a permutation" is promised, and sorted permutations are unique, so the result is the same.
- Emitter.RenderEntries: Go's randomised map iteration order is modelled as an arbitrary choice of the next key. Only properties that hold for every order are proved.
- Consumer.Process.SetDefaultEnv: the same arbitrary next-key choice stands for Go's map iteration order.
- Consumer.Process.Setenv: only the Unix rules for refused names and values are modelled. Other platforms are not.
- Emitter.Template: the template is modelled as text, character for character. Nothing is stated about it as Go syntax.
- Concurrent changes to the environment are not modelled.
