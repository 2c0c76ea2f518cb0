# Command catalog model

A Dafny model of the data core of the command manager, a desktop tool that keeps a
catalog of shell commands in a small SQLite database (`src/command_manager.py`).
The database has three tables:

- **categories**: a unique name, a description and a creation stamp. Five defaults
  are seeded with `INSERT OR IGNORE` at start-up. Under AUTOINCREMENT, SQLite draws
  the new rowid, and raises the table's `sqlite_sequence` entry, before it meets a
  UNIQUE conflict. So an ignored default still uses up an id. A plain `INSERT` that
  fails on the conflict is rolled back with its statement and uses up none.
- **commands**: a name, the command text, an optional category id, a description,
  a 0/1 favourite flag, and creation and update stamps.
- **notes**: a title, content, a free-text category label, and creation and update
  stamps.

The model keeps the three tables as sequences in rowid order inside one class,
`CommandManager.Catalog`. The class also holds one AUTOINCREMENT counter per table
and an abstract clock. Each handler of the window becomes a method. Its dialog
result becomes the method's parameters, and a confirmation box becomes a
`confirmed` flag. Each handler states its whole new state and keeps the catalog
invariant `Valid()`:

- category names are unique and non-empty;
- ids are below the counter and strictly increasing;
- favourite flags are 0 or 1;
- every command's category id names an existing category;
- the stamps are not in the future.

The read side (the command list, the quick search, the note list, the category
list) is specified by functions over the tables. The methods that fill the tree
views are proved to produce them. The properties of those functions are lemmas.

Modules:

| module | file | contents |
|---|---|---|
| `Rows` | `rows.dfy` | tables as sequences: first match, `DELETE … WHERE`, id order |
| `Ordering` | `ordering.dfy` | `ORDER BY` as a stable sort on a (rank descending, text ascending) key |
| `Text` | `text.dfy` | Python's `str.strip`, `str.split()` and `' '.join`; `LIKE` |
| `Display` | `display.dfy` | the one-line, 80-character command text shown in the list |
| `Schema` | `schema.dfy` | records, table constraints, dialog validation, seeding, row updates |
| `Queries` | `queries.dfy` | the list, search, category and note queries and their rendering |
| `Invariants` | `invariants.dfy` | the catalog invariant and its preservation by each kind of write |
| `CommandManager` | `catalog.dfy` | the `Catalog` class: seeding, handlers, list methods |

The SQL engine's `FOREIGN KEY` on `commands.category_id` is not enforced (SQLite
leaves foreign keys off by default). The model therefore keeps references valid
only through the two places the program itself guards them:

- the delete guard, which refuses to delete a category that is still referenced;
- category names resolved against the current list.

`Invariants.DeleteCategoryOk` and `CommandManager.Catalog.DeleteCategory` prove
that these two are enough.

Lookups by name follow the program exactly:

- `get_command_id_by_name` returns the first row with the name (`Rows.FirstWhere`,
  `CommandManager.Catalog.CommandIdByName`);
- note edits act on the first note with the title;
- a note delete removes every note with the title.

The quick search's no-results line (`Queries.NoResults`) is a display row, not
data. It is kept on purpose, so that `Queries.SearchView` covers every outcome of
`quick_search`: a blank term, hits, and no hits.

## Model

| member | source | states |
|---|---|---|
| Rows.FirstWhere | src/command_manager.py:958-962 | The result is the index of a row with the key and no earlier row has it; None exactly when no row has the key (`fetchone` on a rowid-ordered scan). |
| Rows.RemoveWhereSpec | src/command_manager.py:891 | `DELETE … WHERE key = k` keeps exactly the rows whose key differs: every survivor is a row of the table without the key, and every such row survives. |
| Rows.RemoveById | src/command_manager.py:545 | Deleting by the id of row k in an id-ordered table removes exactly that row and keeps the others in order. |
| Rows.RemoveKeepsKeyed | src/command_manager.py:545 | A delete keeps the ids strictly increasing and below the counter. |
| Rows.AppendKeyed | src/command_manager.py:496-498 | Inserting a row with the counter's id keeps the ids strictly increasing and advances the counter by one. |
| Ordering.SortPermutes | src/command_manager.py:991 | The ordered result is a permutation of the selected rows. |
| Ordering.SortSorted | src/command_manager.py:991 | The ordered result is sorted by the key: rank descending, then text ascending. |
| Ordering.SortSameRows | src/command_manager.py:991 | Ordering keeps exactly the same rows. |
| Ordering.TextLeTotal | src/command_manager.py:991 | The code-point order on names is total. |
| Ordering.TextLeTransitive | src/command_manager.py:991 | The code-point order on names is transitive. |
| Ordering.TextLeAntisymmetric | src/command_manager.py:991 | The code-point order on names is antisymmetric. |
| Text.Strip | src/command_manager.py:1211-1214 | `strip()` gives the empty string exactly when the input is all whitespace. |
| Text.StripSpec | src/command_manager.py:1211-1214 | `strip()` returns an infix of the input whose outside is all whitespace and whose first and last characters are not whitespace. |
| Text.Words | src/command_manager.py:1002 | Every piece `split()` returns is a non-empty run with no whitespace. |
| Text.WordsOfWord | src/command_manager.py:1002 | A single word splits into exactly itself. |
| Text.WordsSpacePrefix | src/command_manager.py:1002 | Leading whitespace never changes what `split()` returns. |
| Text.WordsSplit | src/command_manager.py:1002 | A non-empty whitespace run between two texts separates them: the words of the whole are the words of the left part followed by those of the right part, and the run contributes no word. With `WordsOfWord` this fixes `split()` as the maximal non-whitespace runs in order. |
| Text.CollapseTwoWords | src/command_manager.py:1002 | Two words with any non-empty whitespace run between them collapse to the two words around exactly one space. |
| Text.CollapseCollapsed | src/command_manager.py:1002 | `' '.join(s.split())` has no leading or trailing whitespace, no two adjacent spaces, and no whitespace other than single spaces. |
| Text.CollapseKeepsVisible | src/command_manager.py:1002 | Collapsing keeps every non-whitespace character, in order. |
| Text.LowerKeepsContains | src/command_manager.py:1093 | A substring stays a substring after ASCII lower-casing of both sides. |
| Text.ContainsIsLike | src/command_manager.py:1093 | Every plain substring occurrence is a `LIKE '%term%'` match. |
| Text.EmptyNeverLike | src/command_manager.py:1093 | A non-empty term never matches an empty column. |
| Display.FormatCommandShape | src/command_manager.py:998-1006 | The shown text is at most 80 characters, has no line break, no leading or trailing whitespace and no two adjacent spaces. It is the collapsed text when that fits, otherwise the collapsed text's first 77 characters followed by "...". |
| Display.ReplaceLineBreaksRedundant | src/command_manager.py:1001-1002 | Replacing `\n` and `\r` before `split()` never changes the shown text. |
| Display.CollapseThreeWords | src/command_manager.py:1001-1002 | Three words separated by whitespace runs (line breaks included) collapse to the three words separated by single spaces. |
| Display.FormatMultiLineExample | src/command_manager.py:998-1006 | The command text `"ls -la\n\n  /tmp"` is shown as `"ls -la /tmp"`. |
| Display.SameWords | src/command_manager.py:1002 | Strings with whitespace in the same places and equal characters elsewhere split into the same words. |
| Schema.ResolveCategorySpec | src/command_manager.py:1220-1227 | The chosen category name resolves to None exactly when it is empty or unmatched. Otherwise it resolves to the id of an existing category, the one with that name when names are unique. |
| Schema.CommandDialogResult | src/command_manager.py:1210-1230 | The dialog is refused exactly when the stripped name or the stripped command is empty. An accepted form has both non-empty. |
| Schema.NoteDialogResult | src/command_manager.py:1385-1395 | The dialog is refused exactly when the stripped title is empty. An accepted form has a non-empty title. |
| Schema.CategoryDialogResult | src/command_manager.py:692-700 | The dialog is refused exactly when the stripped name is empty. An accepted form has a non-empty name. |
| Schema.SeedKeepsRows | src/command_manager.py:207-208 | Seeding never alters or removes an existing row; it only appends. The AUTOINCREMENT counter moves on by exactly one per default, whether the insert was made or ignored. |
| Schema.SeedCovers | src/command_manager.py:199-208 | After seeding, every default name is present. |
| Schema.SeedPresentIsNoOp | src/command_manager.py:207-208 | When every default name is already present, seeding leaves the table exactly as it was. Only the counter moves on, by the number of defaults, because each ignored insert still uses up an id. |
| Schema.SeedIdempotent | src/command_manager.py:199-208 | Seeding again, at any later time, leaves the table as the first seeding left it. The counter moves on by the number of defaults. |
| Schema.SeedKeeps | src/command_manager.py:159-166 | Seeding keeps the category constraints (ids, UNIQUE names, stamps) and only adds ids. |
| Schema.InsertOrIgnoreKeeps | src/command_manager.py:208 | One `INSERT OR IGNORE` keeps the category constraints and only adds ids, also when the conflict is ignored and the counter still moves on. |
| Schema.AppendCategoryKeeps | src/command_manager.py:721-722 | Inserting a fresh, non-empty name with the next id keeps the category constraints. |
| Schema.RenameKeeps | src/command_manager.py:805-814 | A rename that does not collide keeps names unique, and keeps every row's id and creation stamp, so commands keep their reference. |
| Schema.DeleteGuard | src/command_manager.py:827-840 | With a zero reference count, removing the category leaves every command reference resolving. A positive count means some command references the category with that name. |
| Schema.ToggleChangesOnlyFlag | src/command_manager.py:558-568 | Toggling acts on the first command with the name, flips only its favourite flag and changes nothing else, including the update stamp. An unknown name changes nothing. |
| Schema.ToggleTwice | src/command_manager.py:558-568 | Toggling the same name twice restores the table when flags are 0/1. |
| Schema.FlipKeeps | src/command_manager.py:566 | Flipping a flag keeps ids, 0/1 flags, references and stamps valid. |
| Schema.EditCommandOnlyTarget | src/command_manager.py:524-528 | An edit rewrites only the target row's name, command, category and description and refreshes its update stamp. It keeps the target's id, flag and creation stamp, and every other row. |
| Schema.EditNoteOnlyTarget | src/command_manager.py:873-876 | A note edit rewrites only the target note's title, content and category and refreshes its update stamp. The id, creation stamp and every other note are kept. |
| Schema.FirstCommandNamed | src/command_manager.py:958-962 | A row with the name that no earlier row has is the first match. |
| Queries.CommandRowsSpec | src/command_manager.py:970-991 | The list keeps a command exactly when it passes every active condition (AND). With favourites-only every row is a favourite, and with a category filter every row's category name equals the filter. Every row is a joined command. Rows are ordered by favourite descending, then name ascending. Each passing joined row appears exactly as many times as the join produces it, so one line per passing command and none for the others. |
| Queries.CategoryFilterMeansReference | src/command_manager.py:982-986 | With unique names, filtering by a category's name selects exactly the commands whose id references that category, so uncategorised commands are excluded. |
| Queries.SearchRowsSpec | src/command_manager.py:1086-1095 | The search keeps a command exactly when its name, command or description matches the term, one line per matching command and none for the others. It ignores the list filters and uses the same ordering. |
| Queries.SearchFindsOccurrences | src/command_manager.py:1093 | A command containing the term in any of the three columns is found; one with all three empty is not. |
| Queries.SearchView | src/command_manager.py:1077-1113 | A blank term shows exactly the normal filtered list. A non-blank term shows exactly the rendered search rows for the stripped term when there are any, and only the no-results line when there are none. |
| Queries.CategoryLabel | src/command_manager.py:1006 | A missing or empty category name shows as "未分类"; any other name shows as itself. |
| Queries.FavoriteMark | src/command_manager.py:996 | The favourite column is "是" exactly for a non-zero flag and "否" exactly for zero. |
| Queries.ViewSpec | src/command_manager.py:995-1006 | A list line shows the command's name, a formatted command of at most 80 characters without line breaks, a non-empty category label, and the favourite mark. |
| Queries.FilterChoicesSpec | src/command_manager.py:1046-1051 | The category filter offers "全部" followed by exactly the category names, in name order. |
| Queries.NoteRowsSpec | src/command_manager.py:1026-1044 | The note list keeps a note exactly when its category contains the stripped filter, or keeps every note for a blank filter. A non-blank filter drops notes without a category. Notes are ordered by creation stamp, newest first. Each passing note appears exactly as often as it occurs in the table, and no other note appears. |
| Invariants.AppendCategoryOk | src/command_manager.py:717-728 | Adding a fresh category keeps the category invariant and only adds ids. |
| Invariants.RenameOk | src/command_manager.py:803-814 | A non-colliding rename keeps the category invariant and the set of ids. |
| Invariants.DeleteCategoryOk | src/command_manager.py:827-840 | An unreferenced delete keeps both the category and the command invariants, and removes exactly one row when the name exists. |
| Invariants.RemoveKeepsNames | src/command_manager.py:836 | The categories surviving a delete keep unique, non-empty names. |
| Invariants.AppendCommandOk | src/command_manager.py:494-498 | Inserting a validated command with flag 0 keeps the command invariant. |
| Invariants.RemoveCommandOk | src/command_manager.py:545 | Deleting a command keeps the command invariant. |
| Invariants.AppendNoteOk | src/command_manager.py:846-850 | Inserting a titled note keeps the note invariant. |
| Invariants.RemoveNotesOk | src/command_manager.py:891 | Deleting every note with a title keeps the note invariant. |
| CommandManager.FillTree | src/command_manager.py:995-1006 | The insertion loop produces one line per row, each the rendering of that row. |
| CommandManager.RenderCommands | src/command_manager.py:995-1006 | The lines inserted into the command tree are exactly the views of the fetched rows. |
| CommandManager.Catalog.constructor | src/command_manager.py:147-210 | A fresh database holds exactly the seeded defaults, no commands and no notes, and satisfies the invariant. |
| CommandManager.Catalog.SeedDefaults | src/command_manager.py:199-208 | The row-by-row seeding loop yields the seeding function's result, table and counter, and keeps the invariant. |
| CommandManager.Catalog.InsertOrIgnoreCategory | src/command_manager.py:208 | One `INSERT OR IGNORE` appends the category with the next id unless its name exists. Either way the category counter moves on by one: SQLite draws the rowid before it meets the UNIQUE conflict. |
| CommandManager.Catalog.CommandIdByName | src/command_manager.py:958-962 | None exactly when no command has the name; otherwise the id of the first command with the name. |
| CommandManager.Catalog.LookupCommand | src/command_manager.py:958-962 | The index found is the first match by name. |
| CommandManager.Catalog.InsertCommand | src/command_manager.py:494-499 | Appends one command with the next id, flag 0 and both stamps at the current time; nothing else changes. |
| CommandManager.Catalog.UpdateCommand | src/command_manager.py:524-529 | Rewrites the target row's fields and update stamp, keeps its id, flag and creation stamp; every other row and table is unchanged. |
| CommandManager.Catalog.DeleteCommandRow | src/command_manager.py:545-546 | Removes exactly the target row. |
| CommandManager.Catalog.UpdateFavorite | src/command_manager.py:566-567 | Flips the favourite flag of the row with that id only. |
| CommandManager.Catalog.AddCommand | src/command_manager.py:490-500 | Refused exactly for a blank name or command, with nothing changed; otherwise appends the validated command with the resolved category. |
| CommandManager.Catalog.EditCommand | src/command_manager.py:502-530 | NotFound exactly when no command has the selected name; Invalid exactly for a blank name or command; otherwise only the first command with that name is rewritten. |
| CommandManager.Catalog.DeleteCommand | src/command_manager.py:532-547 | Declined exactly when not confirmed; NotFound exactly when no command has the name; otherwise removes exactly the first command with that name. |
| CommandManager.Catalog.ToggleFavorite | src/command_manager.py:549-569 | The commands become the toggle of the first command with the name; NotFound exactly when there is none; no other table changes. |
| CommandManager.Catalog.InsertCategory | src/command_manager.py:717-723 | Appends one category with the next id and the current time. |
| CommandManager.Catalog.AddCategory | src/command_manager.py:655-728 | Invalid exactly for a blank name; NameTaken (the IntegrityError) exactly when the stripped name exists, with nothing changed; otherwise appends the category. |
| CommandManager.Catalog.EditCategory | src/command_manager.py:730-814 | Invalid exactly for a blank name; NameTaken exactly when the rename would collide, with nothing changed; otherwise renames the selected category in place. |
| CommandManager.Catalog.DeleteCategory | src/command_manager.py:816-840 | InUse with the reference count exactly when commands reference the category; Declined exactly when unreferenced and not confirmed; otherwise removes the category with that name and leaves commands untouched. |
| CommandManager.Catalog.InsertNote | src/command_manager.py:846-851 | Appends one note with the next id and both stamps at the current time. |
| CommandManager.Catalog.UpdateNote | src/command_manager.py:873-877 | Rewrites the target note's title, content, category and update stamp only. |
| CommandManager.Catalog.AddNote | src/command_manager.py:842-853 | Refused exactly for a blank title, with nothing changed; otherwise appends the note. |
| CommandManager.Catalog.EditNote | src/command_manager.py:855-878 | NotFound exactly when no note has the selected title; Invalid exactly for a blank title; otherwise only the first note with the title is rewritten. |
| CommandManager.Catalog.DeleteNote | src/command_manager.py:880-893 | Declined exactly when not confirmed; otherwise removes every note with the title. |
| CommandManager.Catalog.ListCommands | src/command_manager.py:964-1006 | Shows exactly the rendered rows of the filtered, ordered list query. |
| CommandManager.Catalog.QuickSearch | src/command_manager.py:1075-1113 | Shows exactly the search view of the raw term: the normal list for a blank term, otherwise the rendered hits in list order, or the no-results line when nothing matches. |
| CommandManager.Catalog.ListCategories | src/command_manager.py:1008-1015 | Shows exactly the categories in name order. |
| CommandManager.Catalog.ListNotes | src/command_manager.py:1026-1044 | Shows exactly the rendered rows of the filtered, newest-first note query. |

## Left out

- The Tkinter interface is not modelled: windows, widgets, message boxes, the detail popups (`on_note_select`, `execute_command`), the clipboard copies and the author and URL actions. A cancelled dialog is the same as not calling the handler.
- A handler called with nothing selected only shows a warning in the source. The model's handlers take the selected name as a parameter.
- `LIKE` is modelled as substring search after ASCII lower-casing. `%` and `_` typed in a search or filter term are ordinary characters in the model, whereas SQLite treats them as wildcards.
- `ORDER BY` ties (equal flag and name, equal creation stamp) keep table order in the model. SQLite does not promise any tie order.
- `CURRENT_TIMESTAMP` is an abstract natural-number clock advanced by an `elapsed` parameter. Its one-second text format is not modelled.
- SQLite errors other than the UNIQUE violation on category names (disk, locking) are not modelled. That violation is the `NameTaken` status.
- Tkinter turning a numeric-looking value into a number inside a tree row is not modelled.
- `ColumnWidthManager` is not modelled. It is JSON file persistence of column widths plus a map lookup with a default.
- Host management (`refresh_host_list`, `update_host_combo`, `HostDialog` and its port range check) is not modelled. It queries a `hosts` table that the schema never creates.
- `load_categories` (the dialog combobox fill) is not modelled separately. Its query is the same `CategoryList` used by `Schema.ResolveCategorySpec`.
- Connection handling and `__del__` are not modelled.
- `src/backup.py`, `launcher.py` and `make_standalone.py` are not part of this model. They only copy files, set up paths and package the program.
