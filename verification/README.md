# Glossary desk: a Dafny model of the glossary window's state machine

The application is a desktop glossary (`GlossarioApp`). It keeps an ordered
list of entries, each a word and its definition (`Termo`). A search field
filters the list into the table the user sees. Three buttons add, edit and
remove entries. Edit and remove sit behind a fixed password. Every accepted
change writes the whole list to storage and then recomputes the table.

The model has three modules:

- `Text` (`Text.dfy`) holds the string operations the window relies on:
  `String.trim`, which is modelled exactly (it strips characters up to U+0020
  at both ends), `toLowerCase` on ASCII letters, and `contains`. `Utf16`
  gives Java's view of a string as UTF-16 code units, the units in which
  `length()` counts and `substring` cuts.
- `Glossary` (`Glossary.dfy`) holds the entry datatype `Term` and the pure
  rules. `Select` and `View` are the search: the filtered view is a list of
  positions in the authoritative list, in list order. `Shown` is the display
  rule for long definitions. `RemoveAt`, `RemoveFirst` and `Redefine` are the
  list updates behind remove and edit.
- `App` (`GlossaryApp.dfy`) holds the class `GlossaryApp`. Its fields are the
  authoritative list `data`, the filtered view `filtered` and the search text
  `query`. Two ghost fields stand for the outside world: `stored` is what the
  storage file holds, and `log` is the sequence of dialogs shown, saves
  written and table refreshes.

The table's rows in Java are references to the same `Termo` objects as the
list. The model keeps positions into `data` instead, so editing a row through
the view changes the authoritative list, as it does in Java. Modal dialogs
become parameters: `Answer` is the text entered or `Dismissed` (Java's
`null`), and `Confirmation` is the yes/no/cancel answer or a closed dialog.
The object invariant `Valid()` says two things. The view is the search of the
current list, and the storage holds the current list. Every action keeps it.

## Model

| member | source | states |
|---|---|---|
| `Text.TextStart` | src/ui/GlossarioApp.java:174 | the first kept index: everything before it is at most U+0020, and the character at it is not |
| `Text.TextEnd` | src/ui/GlossarioApp.java:174 | the end of the kept text: everything from it to the end is at most U+0020, and the character before it is not |
| `Text.TrimSpec` | src/ui/GlossarioApp.java:174-177 | `Trim(s)` is a slice of `s` with only trimmable characters outside it, and it does not start or end with one |
| `Text.BlankIffAllTrimmable` | src/ui/GlossarioApp.java:174-176 | the `trim().isEmpty()` test rejects exactly the strings made only of characters at most U+0020 |
| `Text.TrimIdempotent` | src/ui/GlossarioApp.java:177 | a stored, trimmed text is unchanged by trimming again |
| `Text.Trim` | src/ui/GlossarioApp.java:174-177 | Java's `trim`, characterised by `Text.TrimSpec` |
| `Text.IsBlank` | src/ui/GlossarioApp.java:174-176 | the `trim().isEmpty()` test, characterised by `Text.BlankIffAllTrimmable` |
| `Text.LowerChar` | src/ui/GlossarioApp.java:160 | an upper-case ASCII letter becomes the same lower-case letter; every other character is kept; the result is never upper-case ASCII |
| `Text.Lower` | src/ui/GlossarioApp.java:160 | lower-casing keeps the length and maps each character on its own |
| `Text.LowerIdempotent` | src/ui/GlossarioApp.java:160 | lower-casing an already lower-cased query changes nothing |
| `Text.Contains` | src/ui/GlossarioApp.java:165-166 | `contains` holds exactly when the query occurs at some index of the text |
| `Text.EncodeChar` | src/ui/GlossarioApp.java:246-247 | a character inside the Basic Multilingual Plane is one code unit equal to it; any other is a high then a low surrogate that together decode to it |
| `Text.Utf16` | src/ui/GlossarioApp.java:246-247 | a string's UTF-16 length is between its character count and twice that |
| `Text.Utf16Append` | src/ui/GlossarioApp.java:247 | the units of a concatenation are the units of its parts, concatenated |
| `Text.Utf16OfBmp` | src/ui/GlossarioApp.java:246-247 | text inside the Basic Multilingual Plane has one unit per character, equal to it |
| `Text.Utf16PrefixOfBmp` | src/ui/GlossarioApp.java:247 | inside the Basic Multilingual Plane, `substring(0, n)` keeps exactly the first `n` characters |
| `Text.Utf16OutsideBmp` | src/ui/GlossarioApp.java:246 | text made only of characters outside the Basic Multilingual Plane has two units per character |
| `Glossary.Matches` | src/ui/GlossarioApp.java:165-166 | the stream's filter predicate, characterised by `Glossary.MatchesIff` and `Glossary.SelectKeepsMatches` |
| `Glossary.MatchesIff` | src/ui/GlossarioApp.java:165-166 | an entry matches exactly when the needle occurs in its lower-cased word or in its lower-cased definition |
| `Glossary.Select` | src/ui/GlossarioApp.java:164-167 | the stream filter yields strictly increasing positions inside the list |
| `Glossary.SelectKeepsMatches` | src/ui/GlossarioApp.java:164-167 | a position is kept exactly when its lower-cased word or definition contains the needle |
| `Glossary.AllIndices` | src/ui/GlossarioApp.java:33 | the copy of the whole list: every position once, in order |
| `Glossary.Project` | src/ui/GlossarioApp.java:244 | the rows are the list's entries at the view's positions |
| `Glossary.View` | src/ui/GlossarioApp.java:159-168 | the view is an order-preserving selection no longer than the list; with an empty query its rows are the whole list in order |
| `Glossary.ViewKeepsMatches` | src/ui/GlossarioApp.java:160-167 | a position is in the view exactly when its entry matches the lower-cased query, whichever branch is taken |
| `Glossary.EmptyNeedleSelectsAll` | src/ui/GlossarioApp.java:161-167 | the empty-query branch gives the same view as the general filter would |
| `Glossary.ViewIsUnique` | src/ui/GlossarioApp.java:164-167 | any strictly increasing list of exactly the matching positions is the view |
| `Glossary.ViewIgnoresQueryCase` | src/ui/GlossarioApp.java:160 | a query and its lower-cased form give the same view |
| `Glossary.ViewAfterAppend` | src/ui/GlossarioApp.java:177-179 | after an append the earlier rows stay in order, and the new entry is shown last exactly when it matches |
| `Glossary.Shown` | src/ui/GlossarioApp.java:245-247 | a definition of at most 100 UTF-16 units is shown whole; a longer one is shown as its first 100 units and `...`; never more than 103 units |
| `Glossary.ShownUnchangedIff` | src/ui/GlossarioApp.java:246-247 | the cell equals the definition's units exactly when it has at most 100 units, or has 103 and already ends in `...` |
| `Glossary.ShownOfBmp` | src/ui/GlossarioApp.java:246-247 | for text inside the Basic Multilingual Plane the limit and the cut are at 100 characters |
| `Glossary.WideCharactersCountTwice` | src/ui/GlossarioApp.java:246-247 | sixty characters outside the Basic Multilingual Plane are 120 units, so they are cut to 100 units and `...` |
| `Glossary.RemoveAt` | src/ui/GlossarioApp.java:208 | removal drops exactly one entry: the earlier ones keep their places, the later ones shift down by one, and the multiset loses only that entry |
| `Glossary.RemoveFirst` | src/ui/GlossarioApp.java:208 | value-equality `List.remove(Object)` drops one entry when some entry is equal, and otherwise leaves the list unchanged |
| `Glossary.RemoveFirstIsRemoveAt` | src/ui/GlossarioApp.java:205-208 | removing the selected entry and removing the first equal entry agree when no earlier entry is equal to it |
| `Glossary.Redefine` | src/ui/GlossarioApp.java:193 | only the chosen entry's definition changes; all words, all other entries and the length are kept |
| `App.Usable` | src/ui/GlossarioApp.java:174-176 | the `x != null && !x.trim().isEmpty()` test, characterised by `App.UsableIffSomeText` |
| `App.UsableIffSomeText` | src/ui/GlossarioApp.java:174-176 | an answer is accepted exactly when it was entered and holds a character above U+0020 |
| `App.Grants` | src/ui/GlossarioApp.java:293 | the password comparison; `App.GlossaryApp.CheckPassword` grants exactly when it holds |
| `App.GateEvents` | src/ui/GlossarioApp.java:288-305 | the dialogs of the access gate, characterised by `App.GateDeniesWrongEntries` |
| `App.GateDeniesWrongEntries` | src/ui/GlossarioApp.java:288-305 | the gate prompts first, and shows a denial exactly for an entered wrong password |
| `App.RemovalQuestion` | src/ui/GlossarioApp.java:206 | the confirmation message naming the word; `App.GlossaryApp.Remove` logs it before any removal |
| `App.GlossaryApp.Rows` | src/ui/GlossarioApp.java:24 | the table's entries are no more than the list's, and with an empty query they are the list |
| `App.GlossaryApp.constructor` | src/ui/GlossarioApp.java:30-38 | the loaded list is shown unfiltered with one table refresh, and storage holds it |
| `App.GlossaryApp.Refilter` | src/ui/GlossarioApp.java:159-170 | the view becomes the search of the current list, and one table refresh is logged |
| `App.GlossaryApp.Persist` | src/ui/GlossarioApp.java:178 | storage holds the whole current list, and one save is logged |
| `App.GlossaryApp.SaveAndRefilter` | src/ui/GlossarioApp.java:178-179 | the list is saved and then the view is recomputed, in that order |
| `App.GlossaryApp.Search` | src/ui/GlossarioApp.java:124-128 | a change of search text recomputes the view and leaves the list alone |
| `App.GlossaryApp.CheckPassword` | src/ui/GlossarioApp.java:288-305 | access is granted exactly for the literal password entered; a wrong entry shows a denial, and a dismissal is silent |
| `App.GlossaryApp.Add` | src/ui/GlossarioApp.java:172-182 | a usable word and then a usable definition append exactly `(trim(word), trim(definition))`, then save, then refilter; otherwise nothing changes, and the definition is never asked for after a rejected word |
| `App.GlossaryApp.Edit` | src/ui/GlossarioApp.java:184-197 | the password is checked first; with access and a selected row, a usable new text replaces only that entry's definition, trimmed, then save, then refilter; a denial, no selection or unusable text changes nothing |
| `App.GlossaryApp.Remove` | src/ui/GlossarioApp.java:199-212 | the password is checked first; with access, a selected row and a yes, that entry alone is removed, then save, then refilter; any other answer changes nothing |
| `App.GlossaryApp.RowCount` | src/ui/GlossarioApp.java:240 | the row count is the number of table entries and never exceeds the list's size |
| `App.GlossaryApp.TermAt` | src/ui/GlossarioApp.java:249 | a row's entry is an entry of the list that matches the current query |
| `App.GlossaryApp.ValueAt` | src/ui/GlossarioApp.java:243-248 | column 0 is the word's units unchanged; any other column is the display rule applied to the definition, at most 103 UTF-16 units |

## Left out

- Window layout, fonts, colours, hover effects, row striping and the look-and-feel setup (src/ui/GlossarioApp.java:40-157, 252-259) are presentation only.
- The read-only detail dialog and the row tooltip (src/ui/GlossarioApp.java:84-90, 215-235) show `TermAt(row).definition` in full. Their dialog construction is not modelled.
- `getColumnCount` returns the number of column titles (two) and `getColumnName` returns the title of a column; neither is modelled.
- Loading and saving (`GlossarioRepository`) are file I/O; `GlossarioRepository` is not part of this model. The loaded list is the constructor's parameter. A save is the ghost event `Saved` and the ghost field `stored`. Save failures are not modelled.
- Modal dialogs, their blocking and the event-loop thread are replaced by parameters holding their answers.
- `Termo` is not part of this model, so it is unknown whether `List.remove(Object)` matches by identity or by a custom `equals`. The model assumes that loading returns distinct objects; add always creates a new one. Under that assumption removing the selected object is removing its position, so the model removes the selected entry by position. If loading returned the same object twice, Java would remove its first occurrence instead. `RemoveFirst` gives the value-equality reading, and `RemoveFirstIsRemoveAt` states when the two agree.
- The Java view is a fresh `ArrayList` of shared references. The model keeps the view as positions into the list, so aliasing is exact, but "fresh copy" has no counterpart in value semantics.
- Text.LowerChar: lower-cases only ASCII `A`-`Z` and keeps every other character, such as `Ç` or `É`, unchanged, whereas Java maps those letters too.
- Text.Lower: lower-cases only ASCII `A`-`Z`. Java's locale-dependent `toLowerCase`, which also maps other Unicode letters and can change a string's length, is not modelled.
- App.GlossaryApp.Edit: requires the selected row to be `-1` or a row of the table, as `JTable.getSelectedRow` guarantees; an out-of-range row, which would throw in Java, is not modelled.
- App.GlossaryApp.Remove: requires the selected row to be `-1` or a row of the table, for the same reason as for `Edit`.
- Text characters are Unicode scalar values. Java strings may also hold unpaired surrogates, which the model cannot represent. For well-formed text, `trim` and `contains` give the same answers on characters as on UTF-16 units, so only the display rule is stated in units.
