# gopher-tidy in Dafny

gopher-tidy is a small interactive macOS cleaner. The user names an
application. The tool then searches nine well-known `Library` directories
for entries whose names contain that name, ignoring case and spaces. It
lists what it found and reads a selection: `quit`, `all`, or 1-based
indices. After a `y` confirmation it removes the selected entries. For
each entry it reports success, a permission refusal (with a `sudo rm -rf`
command the user can run), or some other error.

This project models that workflow as pure functions over explicit inputs
and proves properties of it:

- `Text`: the Go string functions the tool relies on: `strings.TrimSpace`,
  `strings.Fields`, `strings.ReplaceAll(s, " ", "")`, `strings.ToLower`,
  `strings.Contains` and `strings.EqualFold`. White space is Go's
  `unicode.IsSpace`.
- `Decimal`: `strconv.Atoi`. It accepts an optional sign and decimal
  digits, within the 64-bit range.
- `Paths`: `filepath.Join`, `Dir` and `Base` on slash-separated paths.
- `Fs`: the error kinds the tool tells apart, and the result of a removal.
- `Locator`: `findAssociatedFiles`. Each search root comes with the
  sequence of callback invocations its directory walk produces. The model
  keeps the callback's rules:
  - a permission error is skipped;
  - any other error stops that root's walk and becomes a warning;
  - only direct children of the root are compared with the name;
  - a path is listed at most once.
- `Selection`: parsing a menu line into `quit`, `all` or an index list.
- `Menu`: the `handleDeletion` loop, as a state machine fed with the lines
  the user types.
- `Shell`: the remedy command printed for a path that cannot be removed,
  and how a POSIX shell reads the path back out of that command.
- `Deletion`: `deleteFiles`. The results of `os.RemoveAll` are an input.
- `Program`: `main`'s blank-name guard, the search roots, and how a
  session starts.

## Model

| member | source | states |
|---|---|---|
| Text.SkipSpaces | gopher-tidy.go:21 | skipping forward from an index passes only white space and stops at the first visible character or the end |
| Text.SkipSpacesBack | gopher-tidy.go:21 | skipping backward to a lower bound passes only white space and stops after the last visible character or at the bound |
| Text.TrimSpaceSpec | gopher-tidy.go:21 | trimming empties exactly the blank strings; a non-empty result starts and ends with non-space; the result is a slice of the input with only white space on either side |
| Text.TrimSpaceNoop | gopher-tidy.go:119 | a string that starts and ends with a visible character is left unchanged by trimming |
| Text.Word | gopher-tidy.go:130 | a token is the longest white-space-free prefix of the text |
| Text.FieldsAreWords | gopher-tidy.go:130 | `Fields` yields only non-empty tokens with no white space, and yields none exactly when the line is blank |
| Text.FieldsUnwords | gopher-tidy.go:130 | splitting tokens that were joined with single spaces gives back the same tokens |
| Text.FieldsOfWord | gopher-tidy.go:130 | a single word is its own only field |
| Text.FieldsSplitAtSpace | gopher-tidy.go:130 | any white space character, not only the space, separates fields: the fields on either side of it are kept, in order, and none is lost |
| Text.RemoveSpaces | gopher-tidy.go:71 | no space character is left, and every other character occurs as often as before |
| Text.RemoveSpacesAppend | gopher-tidy.go:71 | space removal works piece by piece: removing from a concatenation is concatenating the removals, so the kept characters stay in order |
| Text.RemoveSpacesChar | gopher-tidy.go:71 | on one character, space removal drops exactly the space character and keeps any other |
| Text.ContainsIff | gopher-tidy.go:88 | `Contains` holds exactly when the needle occurs at some position of the text |
| Text.NonBlankKeyword | gopher-tidy.go:71 | a non-empty trimmed name never normalises to the empty keyword |
| Text.LowerTrimSpace | gopher-tidy.go:149 | trimming and lower-casing can be done in either order |
| Text.EqualFoldWord | gopher-tidy.go:121 | comparing with `EqualFold` against a lower-case word accepts exactly that word spelled in any mix of case |
| Text.LowerIsLetter | gopher-tidy.go:149 | the strings that lower-case to one letter are that letter in lower or upper case |
| Decimal.Atoi | gopher-tidy.go:132 | a result is produced only for well-formed decimal text within the 64-bit range; malformed text gives no result; a result is negative only with a leading minus sign, and a leading minus sign never gives a positive result |
| Decimal.ShowNat | gopher-tidy.go:113 | the index shown for an entry is a non-empty string of digits |
| Decimal.AtoiShowNat | gopher-tidy.go:113 | parsing a shown index gives back that index |
| Paths.JoinPair | gopher-tidy.go:57-61 | joining two components puts one separator between each part: `root/a/b` |
| Paths.LastSlash | gopher-tidy.go:86 | the separator found is a separator, and none follows it |
| Paths.DirBaseOfChild | gopher-tidy.go:86-87 | for a parent `x` with no trailing separator and a component `c`, `Dir` of `x/c` gives `x` and `Base` gives `c` |
| Paths.DirOfJoin | gopher-tidy.go:86 | the parent of `root` joined with some components is `root` exactly when there is one component, and then the path is `root/c` with base `c` |
| Locator.Reached | gopher-tidy.go:76-82 | the callbacks that run form a prefix of the walk, hold no fatal error, and are cut off exactly at the first fatal error |
| Locator.Insert | gopher-tidy.go:89 | adding a path to the found set adds exactly that path and keeps every path unique |
| Locator.WalkRoot | gopher-tidy.go:75-94 | one root's walk adds exactly that root's matches, keeps paths unique, and stops with an error exactly when a non-permission error occurs; that error is the one that cut the walk off |
| Locator.SearchFrom | gopher-tidy.go:73-99 | the loop finds exactly the union of every root's matches and keeps paths unique; it warns about every root whose walk stopped, and each new warning names a searched root together with the error that stopped its walk |
| Locator.FindAssociated | gopher-tidy.go:45-106 | the result is duplicate-free and holds exactly the paths some root contributes; every root whose walk stopped is warned about, and every warning names a searched root together with the error that stopped its walk |
| Locator.OnlyDirectChildren | gopher-tidy.go:86-88 | the callback accepts a path exactly when it is a direct child of the root whose normalised name contains the keyword |
| Locator.MatchesAreMatchingChildren | gopher-tidy.go:75-94 | a root contributes `p` exactly when `p` is `root/c` for a reached direct child `c` whose normalised name contains the keyword |
| Locator.FoundUnderIff | gopher-tidy.go:73-99 | the same characterisation over every search root |
| Locator.ChildFoundIff | gopher-tidy.go:86-89 | a reached direct child is found exactly when its normalised name contains the keyword |
| Selection.Position | gopher-tidy.go:132-133 | a token names entry `k` only if it parses to `k + 1` within the list; otherwise it does not parse or is out of range |
| Selection.PickTokenRule | gopher-tidy.go:132-137 | a token that parses to an integer from 1 to the list length selects that entry and rejects nothing; any other token selects nothing and is rejected as typed |
| Selection.EntryNamed | gopher-tidy.go:137 | the entry a valid token `k` names is the `k`-th of the list, counting from 1 |
| Selection.PickTokensSpec | gopher-tidy.go:130-138 | an index list selects the entries named by its valid tokens, in token order and with repeats, and rejects exactly its invalid tokens, in order |
| Selection.PickTokensFromInputs | gopher-tidy.go:130-138 | chosen entries come from the list, and rejected tokens come from the input |
| Selection.ParseCommand | gopher-tidy.go:119-139 | whatever the line, only listed entries are selected, and every rejected token is one of the tokens `strings.Fields` split the trimmed line into |
| Selection.PickTokensAppend | gopher-tidy.go:131-138 | tokens are resolved one by one and independently: the result for a concatenation is the concatenation of the results |
| Selection.PickIndexTokens | gopher-tidy.go:112-113 | typing the first `n` shown indices selects the first `n` entries in order and rejects nothing |
| Selection.QuitIff | gopher-tidy.go:119-124 | a line is the quit command exactly when, trimmed, it spells `quit` in any case |
| Selection.AllSelectsEverything | gopher-tidy.go:127-128 | `all` in any case selects the whole list in list order |
| Selection.BlankLineSelectsNothing | gopher-tidy.go:130-139 | a blank line selects nothing and rejects nothing |
| Selection.IndexList | gopher-tidy.go:129-139 | a line that is neither keyword selects the entries its valid tokens name, in order and with repeats, and rejects exactly its invalid tokens, in order |
| Selection.SelectionExample | gopher-tidy.go:130-138 | an index list that mixes valid, out-of-range and non-numeric tokens: for three entries, `1 3 99 x` selects the first and third and rejects `99` and `x` |
| Selection.PromptExample | gopher-tidy.go:115 | the example the prompt suggests: for three entries, `1 3 4` selects the first and third and rejects `4` |
| Menu.Step | gopher-tidy.go:110-158 | a finished session stays finished; a pending confirmation holds a non-empty selection of listed entries, and one started at the prompt holds exactly what the line selected; a deletion starts only from a confirmation answered `y` and deletes exactly the confirmed selection |
| Menu.YesIff | gopher-tidy.go:148-149 | the answer confirms exactly when, trimmed, it is `y` or `Y` |
| Menu.DoneIsFinal | gopher-tidy.go:121-124 | once the loop is left, no further input changes the outcome or deletes anything |
| Menu.AtMostOneDeletion | gopher-tidy.go:150-153 | a session deletes at most once; when it does, it ends there, having deleted a non-empty selection of listed entries |
| Menu.QuitEndsSession | gopher-tidy.go:121-124 | quitting at the prompt ends the session with nothing deleted, whatever input follows |
| Menu.EmptySelectionReprompts | gopher-tidy.go:141 | a line that selects nothing leads straight back to the prompt |
| Menu.SelectThenConfirm | gopher-tidy.go:141-153 | a line that selects something, followed by a `y` answer, deletes exactly what the line selected, in its order and with its repeats, and ends the session |
| Menu.ConfirmationGate | gopher-tidy.go:148-156 | an answer of `y` or `Y` deletes the selection; any other answer drops it and returns to the prompt |
| Menu.EndOfInputNeverFinishes | gopher-tidy.go:118-119 | when input has ended, every read is empty and the menu comes back without end |
| Shell.RemedyRoundTrip | gopher-tidy.go:174 | read by a POSIX shell, the escaped command removes exactly the path it was built for, whatever characters the path holds |
| Shell.RemedyInjective | gopher-tidy.go:174 | different paths get different escaped commands |
| Shell.RemedyAsWrittenWhenPlain | gopher-tidy.go:174 | for a path without `"`, `\`, `$` or a backquote, the escaped command is the one the tool prints |
| Shell.AsWrittenRemedyBreaks | gopher-tidy.go:174 | the command as printed does not remove a path holding a `"`, a backquote, or a `$` that starts an expansion |
| Deletion.Classify | gopher-tidy.go:167-180 | each result is reported as exactly one of deleted, permission denied, or failed (with the original non-permission error); a refusal carries a command that removes that path, and for a path without special characters it is literally `sudo rm -rf "<path>"` |
| Deletion.DeleteFiles | gopher-tidy.go:162-183 | every path is attempted and reported, in order, whatever happened to earlier ones |
| Program.UserRoots | gopher-tidy.go:57-61 | the per-user roots are `home/Library/<dir>` for the five directories, in order |
| Program.DefaultRoots | gopher-tidy.go:56-66 | nine roots are searched: the per-user ones and the system-wide ones |
| Program.DefaultRootsWellFormed | gopher-tidy.go:56-66 | with an absolute home directory, every root is an absolute directory path |
| Program.Start | gopher-tidy.go:20-41 | the session stops for a blank name exactly when the line is blank; it stops for an unknown user only after a non-blank name; otherwise the menu gets a non-empty, duplicate-free list of exactly the paths found, or the session ends with nothing found; every warning names a search root and the error that stopped its walk |
| Program.SearchKeywordNonEmpty | gopher-tidy.go:23-26 | because of the blank-name guard, the search keyword is never empty |
| Program.ListedAreMatchingChildren | gopher-tidy.go:29-41 | the menu lists exactly `root/c` for every root and reached direct child `c` whose normalised name contains the keyword |

## Left out

- The home directory comes from `user.Current`. The model takes it as an `Option<string>`, and `None` stands for a failed lookup.
- Directory traversal is I/O. Each root's `filepath.WalkDir` is given as the callback invocations it makes. A root missing from that map is walked as a single not-found error at the root.
- `os.RemoveAll` is I/O. Its results are given to `Deletion.DeleteFiles`, one per path.
- Console output is not modelled: prompts, the menu listing, summaries and emoji. Reading a line is modelled as the next element of the input sequence.
- Go map iteration order is random. `Locator` keeps paths in first-seen order, and only properties of the set of paths are proved, never their order.
- Text.Lower: handles ASCII letters only. Go's `strings.ToLower` and `strings.EqualFold` also fold other Unicode letters.
- Paths.Join: does not clean paths. Roots are modelled as absolute paths with no trailing separator (`WellFormedRoot`). A home directory of `/` is outside that.
- Program.Start: returns `NoCurrentUser` where the tool prints the lookup error.
- The menu loops forever at end of input. That behaviour is stated as a property, `Menu.EndOfInputNeverFinishes`, and not treated as an error. End of input is the empty line.
- A permission error on a search root is skipped silently, like any other permission error, because the callback returns nil for it (gopher-tidy.go:77-80). No warning is printed for an unreadable root, and the model does the same.
- `Shell.UnquoteBody` treats any unescaped `$` or backquote as the start of an expansion, which is stricter than a shell. It is used only to read back the remedy command. The Finding below rests only on `$` followed by `(`, `{` or a name character, where a shell does expand.
- Shell.RemedyRoundTrip: reads the command as a POSIX shell does. In interactive bash and zsh, a `!` inside double quotes starts history expansion, so a path holding `!` is not removed there even by the escaped command.
- Deletion.Classify: carries the escaped command `Shell.RemedyCommand`, which is the corrected half of the Finding below. The tool prints the path unescaped. The two commands are identical for every path without `"`, `\`, `$` or a backquote (`Shell.RemedyAsWrittenWhenPlain`). For other paths the model's command differs from the printed one.
- Selection.ParseCommand: its own contract states only where the selected entries and rejected tokens come from. Which entry each token selects is stated by `Selection.IndexList`, `Selection.QuitIff` and `Selection.AllSelectsEverything`.

## Findings

| source | as written | input that shows it | evidently intended | confidence | as-written member | corrected member |
|---|---|---|---|---|---|---|
| gopher-tidy.go:174 | the path is pasted between double quotes without escaping | a path holding a `"`, a backquote, or a `$` that starts an expansion (`$(`, `${`, `$name`), e.g. `/Library/Caches/a"b` or a name containing `$(…)` | a command the user can paste that removes exactly that path | medium, not executed | Shell.AsWrittenRemedyBreaks | Shell.RemedyRoundTrip |

`Deletion.Classify` uses the escaped command, `Shell.RemedyCommand`.
`Shell.RemedyAsWrittenWhenPlain` proves that for every ordinary path this
is the exact command the tool prints.
