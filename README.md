# rofi-zotero: a verified model of the catalog and selection logic

rofi-zotero lets a user pick a paper from a Zotero library in a rofi menu,
pick one of its attachments in a second menu, and open it in a viewer. This
project models, in Dafny, the logic that sits between the library queries and
the menus:

- the label formatters `format_authors`, `format_item` and `format_path`;
- the viewer command built by `open_file`;
- the profile choice of `get_user_prefs` and the setting lookup of
  `get_path_pref`;
- the reconciliation block of `main`. It folds the four query results
  (authors, titles, dates, attachment paths) into dictionaries keyed by item
  id, resolves the raw attachment paths, and builds and sorts the
  `(label, item id)` list;
- the selection step of `main`. It maps the first menu's index to an item,
  sorts that item's attachments, and either opens the only one or asks a
  second menu.

Modules:

- `Common` (`common.dfy`) holds `Option`/`Result`, the query row type, and
  the Python string, slice and index rules the script relies on.
- `Ordering` (`ordering.dfy`) holds Python's `<` on strings and `list.sort()`
  as an in-place insertion sort on an array.
- `Format` (`format.dfy`) holds the formatters and the viewer command.
- `Prefs` (`prefs.dfy`) holds the profile and preference lookups.
- `Catalog` (`catalog.dfy`) holds `main`'s reconciliation, lines 503-556.
- `Selection` (`selection.dfy`) holds `main`'s selection step, lines 570-597.

The loops of `main`, `get_user_prefs` and `get_path_pref` are methods with
loops and invariants. Each method is proved equal to a specification
function, or states directly what it computes. The properties of those
functions are proved as lemmas. The formatters are functions.

The model follows the code as written, including five behaviours a reader
may not expect:

- The author loop stores a run of author rows only when the next run
  starts, so the last run is never stored; when each item's rows are
  adjacent, the last item's authors are never shown.
- When there are no author rows, `authors` is never assigned, and building
  any item label fails. The model reports this as `AuthorsUnbound`.
- The duplicate guard on attachment paths compares the raw path with the
  text of the whole stored list, so repeated paths are kept.
- `keys` keeps the storage key of an item's first title row, and every
  "storage:" path of the item is resolved with that key. A second stored
  attachment therefore points into the first attachment's folder.
- The item list is sorted by the `(label, id)` tuple, so equal labels are
  ordered by item id.

## Model

| member | source | states |
|---|---|---|
| `Common.Contains` | rofi-zotero.py:317 | Python's `preference in line` holds exactly when the text occurs at some offset of the line |
| `Common.Truthy` | rofi-zotero.py:212-217 | an optional string is true exactly when it is present and not empty |
| `Common.BeforeFirst` | rofi-zotero.py:525 | `date.split("-")[0]` is a prefix of the date that contains no "-"; if it is shorter than the date, a "-" follows it |
| `Common.AfterLast` | rofi-zotero.py:178-179 | the file-name part of a path is a suffix without "/"; if it is shorter than the path, a "/" precedes it |
| `Common.SliceBound` | rofi-zotero.py:189 | Python's slice bounds: a bound in `[0, n]` is kept, a negative bound down to `-n` counts from the end, a bound above `n` becomes `n`, and a bound below `-n` becomes 0 |
| `Common.IndexAt` | rofi-zotero.py:574 | Python's list subscript reads position `i` for `i >= 0`, and position `n + i` for `-n <= i < 0` |
| `Common.FirstIndex` | rofi-zotero.py:517 | the first row that carries a given id |
| `Ordering.StrLt` | rofi-zotero.py:576 | Python's `<` on strings: when one string is a prefix of the other, the shorter is smaller and equal strings are not |
| `Ordering.StrLtFirstDifference` | rofi-zotero.py:576 | when neither string is a prefix of the other, the first position where they differ decides |
| `Ordering.StrLtIrreflexive` | rofi-zotero.py:576 | no string is smaller than itself under Python's `<` |
| `Ordering.StrLtTransitive` | rofi-zotero.py:576 | Python's `<` on strings is transitive |
| `Ordering.StrLtTrichotomy` | rofi-zotero.py:576 | any two different strings are ordered one way or the other |
| `Ordering.StrLtAsymmetric` | rofi-zotero.py:576 | Python's `<` on strings never holds both ways |
| `Ordering.AdjacentSortedIsSorted` | rofi-zotero.py:555 | for a total order, a list where each neighbour pair is in order is sorted at every pair of positions |
| `Ordering.SwapDown` | rofi-zotero.py:555 | one exchange of neighbours inside `list.sort()` changes only those two slots and keeps the same elements |
| `Ordering.SiftDown` | rofi-zotero.py:555 | one insertion step extends the sorted prefix by one element, leaves the rest alone and keeps the same elements |
| `Ordering.InsertionSort` | rofi-zotero.py:555 | `list.sort()` leaves the list in order and with the same elements |
| `Format.FormatAuthors` | rofi-zotero.py:146-154 | the label starts with the first name; it is that name alone exactly for one author; two authors get " and " plus the second name; three or more get " et al." |
| `Format.EtAlIgnoresLaterNames` | rofi-zotero.py:152-153 | with three or more authors only the first name matters |
| `Format.FormatItem` | rofi-zotero.py:212-222 | the four templates are author-or-"Unknown", then " (year)" when there is a year, then " - " and the title |
| `Format.ItemLabelEndsWithTitle` | rofi-zotero.py:36-39 | every item label ends with " - " followed by the title |
| `Format.EmptyIsMissing` | rofi-zotero.py:212-218 | an empty author or year string gives the same label as a missing one |
| `Format.Shorten` | rofi-zotero.py:182-190 | a string no longer than `maxlen` is returned unchanged |
| `Format.ShortenExact` | rofi-zotero.py:185-190 | a longer string becomes exactly `maxlen` characters: its first `char_start` characters, "…", and its last `char_end` characters |
| `Format.ShortenKeepsWholeStringWhenEndIsZero` | rofi-zotero.py:185-189 | when the rounded ending is 1, `s[-0:]` is the whole string, so the "shortened" text is longer than the input |
| `Format.ShortenAddsOnlyEllipsis` | rofi-zotero.py:189-190 | shortening adds no character other than "…", so a character missing from the input stays missing |
| `Format.FormatPath` | rofi-zotero.py:177-190 | without `fullpath` the result has no "/"; a short enough file name or full path is returned as is; with a kept ending (`char_end`) of at least one and at most `maxlen - 1` characters the result fits in `maxlen` |
| `Format.OpenCommand` | rofi-zotero.py:345-354 | "%u" is appended when missing; every "%u" token becomes the path and every other token stays in place; the path is in the command and, unless the path is itself "%u", no "%u" is left |
| `Prefs.Profiles` | rofi-zotero.py:278 | the profiles are exactly the sections that have a `path` option, and there are no more of them than sections |
| `Prefs.ChosenIsUnique` | rofi-zotero.py:282-295 | at most one profile is the chosen one |
| `Prefs.NoNameAlwaysChooses` | rofi-zotero.py:288-295 | without a profile name, some profile is always chosen once there is one |
| `Prefs.FirstDefault` | rofi-zotero.py:289-291 | the first profile marked `default = 1` |
| `Prefs.UserPrefs` | rofi-zotero.py:274-295 | no profiles is an error; with a name, the first profile with that name, else an error with no fallback; without a name, the first default profile, else the first profile; the result is `<config>/zotero/<path>/prefs.js` |
| `Prefs.FirstInProfiles` | rofi-zotero.py:278-291 | the first profile that a rule accepts, counted among the profiles, is the first accepted profile section of the file |
| `Prefs.ChosenIsFirstInFile` | rofi-zotero.py:282-295 | the chosen profile is, in file order, the first profile section with the requested name; without a name, the first one marked default, or failing that the first profile section |
| `Prefs.PathPref` | rofi-zotero.py:314-323 | the result is none exactly when no line mentions the setting; it fails exactly when some such line does not match the pattern; otherwise it is the value from the last line that mentions the setting |
| `Catalog.Runs` | rofi-zotero.py:503-513 | there are runs exactly when there are author rows, and the last run has the last row's id |
| `Catalog.StoredAuthors` | rofi-zotero.py:507-509 | storing the runs in order gives a dictionary keyed by exactly the runs' ids |
| `Catalog.LastRunWins` | rofi-zotero.py:507-509 | when several runs share an id, the last of them is what stays stored |
| `Catalog.AuthorsOf` | rofi-zotero.py:503-513 | the loop leaves no dictionary exactly when there are no author rows, and only ids of author rows as keys |
| `Catalog.GroupStep` | rofi-zotero.py:506-513 | one iteration of the author loop keeps the running list and id equal to the last run, and keeps the dictionary equal to the runs before it |
| `Catalog.GroupAuthors` | rofi-zotero.py:503-513 | the author loop gives no dictionary for no rows; otherwise it gives every run but the last, stored in order |
| `Catalog.NamesOf` | rofi-zotero.py:503-513 | an item has author names exactly when it has an author row |
| `Catalog.RunIdsReplaceLast` | rofi-zotero.py:512-513 | extending the last run keeps the set of run ids |
| `Catalog.RunIdsAppend` | rofi-zotero.py:507-513 | starting a new run adds its id to the set of run ids |
| `Catalog.RunIdsSnoc` | rofi-zotero.py:506-513 | each author row adds its id to the set of run ids |
| `Catalog.RunIdsAreRowIds` | rofi-zotero.py:503-513 | the runs' ids are exactly the ids of the author rows |
| `Catalog.RunsFlatten` | rofi-zotero.py:503-513 | the runs cut the author rows into pieces: their names, run after run, are the rows' names in order |
| `Catalog.RunsCarryRowIds` | rofi-zotero.py:503-513 | the other half of that partition: each name of a run comes from a row with the run's id, so the run ids, repeated once per name, are the rows' ids in order |
| `Catalog.RunsAreMaximal` | rofi-zotero.py:507-511 | neighbouring runs have different ids, so each run is a maximal stretch of equal ids |
| `Catalog.ContiguousPrefix` | rofi-zotero.py:503-513 | dropping the last row keeps ids contiguous |
| `Catalog.ContiguousRunsDistinct` | rofi-zotero.py:503-513 | when each item's rows are adjacent, no two runs share an id |
| `Catalog.ContiguousRunsHoldAllNames` | rofi-zotero.py:503-513 | when each item's rows are adjacent, each run holds all of its item's names |
| `Catalog.ContiguousAuthorKeys` | rofi-zotero.py:503-513 | for adjacent rows, exactly the items other than the one in the last row get authors |
| `Catalog.ContiguousAuthorValues` | rofi-zotero.py:503-513 | for adjacent rows, every stored entry is the formatted list of all names of its item |
| `Catalog.ContiguousAuthors` | rofi-zotero.py:503-513 | for adjacent rows, every item except the one in the last row gets the formatted list of all its names; the last item gets nothing |
| `Catalog.OneItemGetsNoAuthors` | rofi-zotero.py:503-513 | a library whose author rows all belong to one item gets an empty author dictionary |
| `Catalog.FirstSeen` | rofi-zotero.py:515-520 | the dictionary a "first row wins" loop builds has exactly the ids of the rows as keys |
| `Catalog.FirstSeenIsFirstRow` | rofi-zotero.py:517-520 | what is stored under an id is the payload of that id's first row |
| `Catalog.FirstSeenIgnoresLaterRows` | rofi-zotero.py:517-520 | rows added later never change what is recorded for an id already seen |
| `Catalog.YearOf` | rofi-zotero.py:525 | the year is the prefix of the date before its first "-", or the whole date |
| `Catalog.YearsOf` | rofi-zotero.py:522-525 | the year dictionary has exactly the dated items as keys |
| `Catalog.YearsAreFirstDates` | rofi-zotero.py:522-525 | an item's year is the text before the first "-" of its first date |
| `Catalog.CollectTitles` | rofi-zotero.py:515-520 | titles and storage keys are the first-row-wins dictionary; the dictionary's insertion order lists every titled id exactly once, and is empty only when there are no title rows |
| `Catalog.CollectYears` | rofi-zotero.py:522-525 | the date loop builds the first-row-wins dictionary of years |
| `Catalog.ResolvePath` | rofi-zotero.py:535-543 | "attachments:" paths go under the base directory and "storage:" paths under `<data>/storage/<key>/`, each with the prefix removed once; other paths are used as written; a "storage:" path of an item without a key is the only error |
| `Catalog.Escape` | rofi-zotero.py:532 | escaping leaves a string without backslashes and without the quote unchanged, and never shortens it |
| `Catalog.StrRepr` | rofi-zotero.py:532 | `repr` of a path without backslashes and without both quote kinds is the path in single quotes, or in double quotes when it holds a single quote |
| `Catalog.ListRepr` | rofi-zotero.py:532 | the text of a stored path list always starts with "[", which is what the guard depends on |
| `Catalog.PathStep` | rofi-zotero.py:529-546 | a NULL path changes nothing; a step fails exactly on a "storage:" path of an item without a key, with that item's error; a successful step adds the row's item to the keys when the row has a path |
| `Catalog.PathStepTouchesOneItem` | rofi-zotero.py:532-546 | a step leaves every other item's list as it was, and extends its own item's list by at most one path at the end |
| `Catalog.ErrorStops` | rofi-zotero.py:540 | once resolving a path has failed, later rows change nothing |
| `Catalog.CollectPaths` | rofi-zotero.py:527-546 | when the loop succeeds, exactly the items with a non-NULL path have a list |
| `Catalog.AppendPath` | rofi-zotero.py:544-546 | the item's list gains the resolved path at its end, starting from an empty list when the item has none yet; every other item keeps its list |
| `Catalog.ResolvePaths` | rofi-zotero.py:527-546 | the path loop computes exactly the row-by-row fold: skip NULL paths and paths equal to the stored list's text, and otherwise resolve and append |
| `Catalog.ResolvedOf` | rofi-zotero.py:527-546 | an item has resolved paths only if some row of it has a path |
| `Catalog.PathErrorsAreMissingKeys` | rofi-zotero.py:527-546 | the path loop fails exactly when some "storage:" path belongs to an item without a storage key |
| `Catalog.PathListsAreResolvedRows` | rofi-zotero.py:527-546 | unless a raw path starts with "[", a successful loop gives a list to exactly the items with a path, holding all their resolved paths in row order, duplicates included |
| `Catalog.DuplicatePathsAreKept` | rofi-zotero.py:532 | two rows with the same plain path give a list with that path twice |
| `Catalog.PlainPathStep` | rofi-zotero.py:532-546 | a path without prefix that does not start with "[" is appended to its item's list as written |
| `Catalog.ListTextIsSkipped` | rofi-zotero.py:532 | a raw path spelled like the text of the stored list is skipped |
| `Catalog.StorageUsesFirstKey` | rofi-zotero.py:538-540 | a "storage:" path is resolved inside the folder of the storage key from its item's first title row |
| `Catalog.EntryLtIsStrictTotal` | rofi-zotero.py:555 | comparing `(label, id)` tuples is asymmetric and total, and "not smaller" is transitive |
| `Catalog.EntryLt` | rofi-zotero.py:555 | tuple `<` on `(label, id)`: the label decides, and equal labels are ordered by id; an entry is never smaller than itself |
| `Catalog.SortedDistinctIsIncreasing` | rofi-zotero.py:555 | a sorted list of different entries is strictly increasing |
| `Catalog.Get` | rofi-zotero.py:550-551 | `dict.get` gives a value exactly for a key in the dictionary, and that key's value |
| `Catalog.ItemLabel` | rofi-zotero.py:549-552 | an item's label starts with its author, or "Unknown" without one, and ends with " - " and its title |
| `Catalog.ItemsListTitles` | rofi-zotero.py:548-553 | the unsorted list, built over the titles in dictionary order, has one entry per titled item with its label, and no repeats |
| `Catalog.ItemList` | rofi-zotero.py:548-555 | the sorted list holds exactly one entry per titled item, labelled from its title, author and year, in strictly increasing `(label, id)` order |
| `Catalog.Reconcile` | rofi-zotero.py:503-556 | a path error comes first; then a missing author dictionary fails when there are titles; otherwise the catalog holds the path dictionary and one sorted entry per titled item |
| `Selection.StrLtIsStrictTotal` | rofi-zotero.py:576 | Python's `<` on strings is asymmetric and "not smaller" is transitive |
| `Selection.SortPaths` | rofi-zotero.py:575-576 | the item's paths come out sorted, with the same elements |
| `Selection.AttachmentMenu` | rofi-zotero.py:581-587 | one menu line per attachment, each at most 80 characters without "/", and the bare file name when that fits |
| `Selection.SelectAttachment` | rofi-zotero.py:570-597 | an empty reply cancels; an index out of Python's range fails; an item without paths fails; one attachment opens directly; otherwise the second reply cancels, fails, or picks a position of the sorted list; whatever opens is one of the picked item's paths |

## Left out

- Running rofi and the viewer, `show_error`, and printing are left out. These are external processes and output. Each picker's reply is a parameter: none for an empty reply, or the integer rofi printed.
- A picker reply that is not an integer is left out. The script would raise `ValueError` from `int()` on it.
- A label that contains a newline is left out. It would shift rofi's line numbers against the item list.
- The SQLite queries, `get_item_info`, and the temporary copy of the database are left out. The four query results are parameters, as rows of `(item id, value)`.
- Reading `profiles.ini` and `prefs.js` is left out: `configparser`, `read_text` and `splitlines`. The parsed sections and the list of lines are parameters. `configparser`'s handling of option-name case and of the `[DEFAULT]` section belongs to the parser and is not modelled.
- Prefs.PathPref: the regular expression `,.*"(.*)"` is a function parameter, with none standing for a failed match. A failed match raises `TypeError` in the script.
- Format.OpenCommand: `shlex.split` is left out. The command starts from the token list. Running the command is left out.
- The `exists()` and `is_file()` checks on paths are left out. So is the error shown when the chosen file does not exist. These are file-system queries.
- pathlib is left out. Paths are strings joined with "/". An absolute right-hand side does not replace the left side. There is no normalisation: `Path("")` is not turned into ".", and "a//b" is not turned into "a/b". `Path.name` ignoring a trailing "/" is not modelled either.
- Selection.SortPaths orders paths by Python's `<` on the whole string. `PosixPath` compares its parts instead. The two orders can differ when a path component contains a character that sorts below "/", such as "." or "-".
- Catalog.StrRepr: Python's `repr` also escapes tabs, newlines, other control characters and non-printable characters, for example as `\n` or `\x1b`. The model copies them unchanged. They only matter to the guard when a raw path holds such a character.
- Format.FormatPath: Python's `round` on `maxlen * ending_fraction` is taken as an integer parameter, 40 for the script's options.
- Argument parsing and the glue code in `main` that picks directories and defaults are left out.

