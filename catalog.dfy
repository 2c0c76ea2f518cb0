/** The catalog as the handlers of `CommandManager` see it: three tables, an
    AUTOINCREMENT counter per table and the clock `CURRENT_TIMESTAMP` reads.
    Each handler is one method; what its dialog returns is the method's
    parameters, and a confirmation box is a `confirmed` flag. */
module CommandManager {
  import opened Rows
  import opened Text
  import opened Schema
  import opened Invariants
  import opened Queries

  /** How a handler ends. `Invalid` is a dialog that cannot be confirmed
      (the user can only cancel it), `NameTaken` the IntegrityError of the
      UNIQUE constraint, `InUse` the refused category delete with its count,
      `Declined` a confirmation answered with no. */
  datatype Status = Done | NotFound | Invalid | NameTaken | InUse(count: nat) | Declined

  /** Renders fetched command rows into list lines, one per row, in order. */
  method RenderCommands(rows: seq<CommandRow>) returns (views: seq<CommandView>)
    ensures views == Views(rows)
  {
    views := FillTree(rows, View);
  }

  /** The `for row in rows: tree.insert(...)` loop of the list refreshes: one
      line per fetched row, rendered by `render`, in fetch order. */
  method FillTree<R, V>(rows: seq<R>, render: R -> V) returns (views: seq<V>)
    ensures |views| == |rows|
    ensures forall k | 0 <= k < |rows| :: views[k] == render(rows[k])
  {
    views := [];
    var i := 0;
    while i < |rows|
      invariant 0 <= i <= |rows|
      invariant |views| == i
      invariant forall k | 0 <= k < i :: views[k] == render(rows[k])
    {
      views := views + [render(rows[i])];
      i := i + 1;
    }
  }

  class Catalog {
    var categories: seq<Category>
    var commands: seq<Command>
    var notes: seq<Note>
    var nextCategoryId: nat
    var nextCommandId: nat
    var nextNoteId: nat
    var clock: nat

    /** What every handler keeps: ids in rowid order below their counters,
        unique non-empty category names, 0/1 favourite flags, category
        references that resolve, non-empty command names, texts and note
        titles, and timestamps no later than the clock. */
    ghost predicate Valid()
      reads this
    {
      && CategoriesOk(categories, nextCategoryId, clock)
      && CommandsOk(commands, categories, nextCommandId, clock)
      && NotesOk(notes, nextNoteId, clock)
    }

    /** `init_database` on a new database file: empty tables, then the five
        default categories. */
    constructor (now: nat)
      ensures Valid()
      ensures commands == [] && notes == [] && clock == now
      ensures (categories, nextCategoryId) == SeedAll([], 1, DefaultCategories, now)
      ensures nextCommandId == 1 && nextNoteId == 1
    {
      categories, commands, notes := [], [], [];
      nextCategoryId, nextCommandId, nextNoteId := 1, 1, 1;
      clock := now;
      new;
      SeedDefaults();
    }

    /** The seeding loop of `init_database`, also run when an existing file is
        opened: one `INSERT OR IGNORE` per default category. */
    method SeedDefaults()
      modifies this
      requires Valid()
      ensures Valid()
      ensures (categories, nextCategoryId) == SeedAll(old(categories), old(nextCategoryId), DefaultCategories, clock)
      ensures commands == old(commands) && notes == old(notes) && clock == old(clock)
      ensures nextCommandId == old(nextCommandId) && nextNoteId == old(nextNoteId)
    {
      DefaultNamesPresent();
      var i := 0;
      while i < |DefaultCategories|
        invariant 0 <= i <= |DefaultCategories|
        invariant Valid()
        invariant SeedAll(categories, nextCategoryId, DefaultCategories[i..], clock)
               == SeedAll(old(categories), old(nextCategoryId), DefaultCategories, clock)
        invariant commands == old(commands) && notes == old(notes) && clock == old(clock)
        invariant nextCommandId == old(nextCommandId) && nextNoteId == old(nextNoteId)
      {
        var entry := DefaultCategories[i];
        ghost var rest := DefaultCategories[i..];
        assert rest[0] == entry && rest[1..] == DefaultCategories[i + 1..];
        InsertOrIgnoreCategory(entry.0, entry.1);
        i := i + 1;
      }
    }

    /** `INSERT OR IGNORE INTO categories (name, description)`. */
    method InsertOrIgnoreCategory(name: string, description: string)
      modifies this
      requires Valid() && name != []
      ensures Valid()
      ensures (categories, nextCategoryId) == InsertOrIgnore(old(categories), old(nextCategoryId), name, description, clock)
      ensures commands == old(commands) && notes == old(notes) && clock == old(clock)
      ensures nextCommandId == old(nextCommandId) && nextNoteId == old(nextNoteId)
    {
      if !HasName(categories, name) {
        var c := Category(nextCategoryId, name, description, clock);
        AppendCategoryOk(categories, nextCategoryId, clock, c);
        MoreCategories(commands, categories, categories + [c], nextCommandId, clock);
        categories := categories + [c];
        nextCategoryId := nextCategoryId + 1;
      } else {
        // the conflict is ignored after the id was drawn: the id is used up
        KeyedRaise(categories, CategoryId, nextCategoryId);
        nextCategoryId := nextCategoryId + 1;
      }
    }

    /** `get_command_id_by_name`: the id of the first command, in scan order,
        with that name. */
    method CommandIdByName(name: string) returns (id: Option<nat>)
      ensures id.None? <==> forall k | 0 <= k < |commands| :: commands[k].name != name
      ensures id.Some? ==> exists k | 0 <= k < |commands| ::
        && commands[k].name == name && commands[k].id == id.value
        && forall j | 0 <= j < k :: commands[j].name != name
    {
      var i := 0;
      while i < |commands|
        invariant 0 <= i <= |commands|
        invariant forall j | 0 <= j < i :: commands[j].name != name
      {
        if commands[i].name == name {
          return Some(commands[i].id);
        }
        i := i + 1;
      }
      return None;
    }

    /** The handlers' lookup: CommandIdByName, tied to the row it found. */
    method LookupCommand(name: string) returns (found: Option<nat>)
      ensures found == FirstWhere(commands, CommandName, name)
    {
      var id := CommandIdByName(name);
      if id.None? {
        return None;
      }
      var m :| 0 <= m < |commands| && commands[m].name == name && commands[m].id == id.value
        && forall j | 0 <= j < m :: commands[j].name != name;
      FirstCommandNamed(commands, name, m);
      return Some(m);
    }

    // -------------------------------------------------------------------------
    // The statements the command handlers issue

    /** `INSERT INTO commands (name, command, category_id, description)`:
        `is_favorite` and both timestamps take their defaults. */
    method InsertCommand(form: CommandForm, elapsed: nat)
      modifies this
      requires Valid()
      requires form.name != [] && form.text != []
      requires form.categoryId.Some? ==> form.categoryId.value in CategoryIds(categories)
      ensures Valid()
      ensures clock == old(clock) + elapsed
      ensures commands == old(commands) + [Command(old(nextCommandId), form.name, form.text, form.categoryId, form.description, 0, clock, clock)]
      ensures nextCommandId == old(nextCommandId) + 1
      ensures categories == old(categories) && notes == old(notes)
      ensures nextCategoryId == old(nextCategoryId) && nextNoteId == old(nextNoteId)
    {
      LaterClock(categories, commands, notes, nextCategoryId, nextCommandId, nextNoteId, clock, clock + elapsed);
      clock := clock + elapsed;
      var c := Command(nextCommandId, form.name, form.text, form.categoryId, form.description, 0, clock, clock);
      AppendCommandOk(commands, categories, nextCommandId, clock, c);
      commands := commands + [c];
      nextCommandId := nextCommandId + 1;
    }

    /** `UPDATE commands SET name, command, category_id, description,
        updated_at = CURRENT_TIMESTAMP WHERE id = ?` for the id of row `k`. */
    method UpdateCommand(k: nat, form: CommandForm, elapsed: nat)
      modifies this
      requires Valid() && k < |commands|
      requires form.name != [] && form.text != []
      requires form.categoryId.Some? ==> form.categoryId.value in CategoryIds(categories)
      ensures Valid()
      ensures clock == old(clock) + elapsed
      ensures |commands| == |old(commands)|
      ensures commands[k] == Command(old(commands)[k].id, form.name, form.text, form.categoryId, form.description,
                                     old(commands)[k].isFavorite, old(commands)[k].createdAt, clock)
      ensures forall i | 0 <= i < |commands| && i != k :: commands[i] == old(commands)[i]
      ensures categories == old(categories) && notes == old(notes)
      ensures nextCategoryId == old(nextCategoryId) && nextCommandId == old(nextCommandId) && nextNoteId == old(nextNoteId)
    {
      LaterClock(categories, commands, notes, nextCategoryId, nextCommandId, nextNoteId, clock, clock + elapsed);
      clock := clock + elapsed;
      EditCommandOnlyTarget(commands, nextCommandId, k, form, clock);
      EditCommandOk(commands, categories, nextCommandId, clock, commands[k].id, form);
      commands := EditCommandRows(commands, commands[k].id, form, clock);
    }

    /** `DELETE FROM commands WHERE id = ?` for the id of row `k`. */
    method DeleteCommandRow(k: nat)
      modifies this
      requires Valid() && k < |commands|
      ensures Valid()
      ensures commands == old(commands)[..k] + old(commands)[k + 1..]
      ensures categories == old(categories) && notes == old(notes) && clock == old(clock)
      ensures nextCategoryId == old(nextCategoryId) && nextCommandId == old(nextCommandId) && nextNoteId == old(nextNoteId)
    {
      RemoveById(commands, CommandId, nextCommandId, k);
      RemoveCommandOk(commands, categories, nextCommandId, clock, commands[k].id);
      commands := RemoveWhere(commands, CommandId, commands[k].id);
    }

    /** `UPDATE commands SET is_favorite = ? WHERE id = ?` with the flipped flag
        of row `k`. */
    method UpdateFavorite(k: nat)
      modifies this
      requires Valid() && k < |commands|
      ensures Valid()
      ensures commands == FlipFavorite(old(commands), old(commands)[k].id)
      ensures categories == old(categories) && notes == old(notes) && clock == old(clock)
      ensures nextCategoryId == old(nextCategoryId) && nextCommandId == old(nextCommandId) && nextNoteId == old(nextNoteId)
    {
      FlipOk(commands, categories, nextCommandId, clock, commands[k].id);
      commands := FlipFavorite(commands, commands[k].id);
    }

    // -------------------------------------------------------------------------
    // Command handlers

    /** `add_command`. */
    method AddCommand(rawName: string, rawText: string, choice: string, rawDescription: string, elapsed: nat)
      returns (status: Status)
      modifies this
      requires Valid()
      ensures Valid()
      ensures status == Done || status == Invalid
      ensures status == Invalid <==> AllSpace(rawName) || AllSpace(rawText)
      ensures status == Invalid ==> unchanged(this)
      ensures status == Done ==>
        && clock == old(clock) + elapsed
        && commands == old(commands) + [Command(old(nextCommandId), Strip(rawName), Strip(rawText),
             ResolveCategory(CategoryList(old(categories)), choice), Strip(rawDescription), 0, clock, clock)]
        && nextCommandId == old(nextCommandId) + 1
        && categories == old(categories) && notes == old(notes)
        && nextCategoryId == old(nextCategoryId) && nextNoteId == old(nextNoteId)
    {
      var form := CommandDialogResult(rawName, rawText, choice, rawDescription, CategoryList(categories));
      if form.None? {
        return Invalid;
      }
      ResolvedExists(categories, choice);
      InsertCommand(form.value, elapsed);
      status := Done;
    }

    /** `edit_command` for the list line showing `selected`: the name is
        resolved first, then the dialog is shown. */
    method EditCommand(selected: string, rawName: string, rawText: string, choice: string, rawDescription: string, elapsed: nat)
      returns (status: Status)
      modifies this
      requires Valid()
      ensures Valid()
      ensures status == Done || status == NotFound || status == Invalid
      ensures status == NotFound <==> FirstWhere(old(commands), CommandName, selected).None?
      ensures status == Invalid <==>
        FirstWhere(old(commands), CommandName, selected).Some? && (AllSpace(rawName) || AllSpace(rawText))
      ensures status != Done ==> unchanged(this)
      ensures status == Done ==>
        var k := FirstWhere(old(commands), CommandName, selected).value;
        && clock == old(clock) + elapsed
        && |commands| == |old(commands)|
        && commands[k] == Command(old(commands)[k].id, Strip(rawName), Strip(rawText),
             ResolveCategory(CategoryList(old(categories)), choice), Strip(rawDescription),
             old(commands)[k].isFavorite, old(commands)[k].createdAt, clock)
        && (forall i | 0 <= i < |commands| && i != k :: commands[i] == old(commands)[i])
        && categories == old(categories) && notes == old(notes)
        && nextCategoryId == old(nextCategoryId) && nextCommandId == old(nextCommandId) && nextNoteId == old(nextNoteId)
    {
      var found := LookupCommand(selected);
      if found.None? {
        return NotFound;
      }
      var form := CommandDialogResult(rawName, rawText, choice, rawDescription, CategoryList(categories));
      if form.None? {
        return Invalid;
      }
      ResolvedExists(categories, choice);
      UpdateCommand(found.value, form.value, elapsed);
      status := Done;
    }

    /** `delete_command`: the confirmation comes first, then the lookup. */
    method DeleteCommand(selected: string, confirmed: bool) returns (status: Status)
      modifies this
      requires Valid()
      ensures Valid()
      ensures status == Done || status == NotFound || status == Declined
      ensures status == Declined <==> !confirmed
      ensures status == NotFound <==> confirmed && FirstWhere(old(commands), CommandName, selected).None?
      ensures status != Done ==> unchanged(this)
      ensures status == Done ==>
        var k := FirstWhere(old(commands), CommandName, selected).value;
        && commands == old(commands)[..k] + old(commands)[k + 1..]
        && categories == old(categories) && notes == old(notes) && clock == old(clock)
        && nextCategoryId == old(nextCategoryId) && nextCommandId == old(nextCommandId) && nextNoteId == old(nextNoteId)
    {
      if !confirmed {
        return Declined;
      }
      var found := LookupCommand(selected);
      if found.None? {
        return NotFound;
      }
      label before:
      DeleteCommandRow(found.value);
      assert commands == old@before(commands)[..found.value] + old@before(commands)[found.value + 1..];
      status := Done;
    }

    /** `toggle_favorite`. */
    method ToggleFavorite(selected: string) returns (status: Status)
      modifies this
      requires Valid()
      ensures Valid()
      ensures status == Done || status == NotFound
      ensures status == NotFound <==> FirstWhere(old(commands), CommandName, selected).None?
      ensures commands == ToggleByName(old(commands), selected)
      ensures categories == old(categories) && notes == old(notes) && clock == old(clock)
      ensures nextCategoryId == old(nextCategoryId) && nextCommandId == old(nextCommandId) && nextNoteId == old(nextNoteId)
    {
      var found := LookupCommand(selected);
      if found.None? {
        return NotFound;
      }
      UpdateFavorite(found.value);
      status := Done;
    }

    // -------------------------------------------------------------------------
    // Category statements and handlers

    /** `INSERT INTO categories (name, description)` of a name not yet taken. */
    method InsertCategory(form: CategoryForm, elapsed: nat)
      modifies this
      requires Valid() && form.name != [] && !HasName(categories, form.name)
      ensures Valid()
      ensures clock == old(clock) + elapsed
      ensures categories == old(categories) + [Category(old(nextCategoryId), form.name, form.description, clock)]
      ensures nextCategoryId == old(nextCategoryId) + 1
      ensures commands == old(commands) && notes == old(notes)
      ensures nextCommandId == old(nextCommandId) && nextNoteId == old(nextNoteId)
    {
      LaterClock(categories, commands, notes, nextCategoryId, nextCommandId, nextNoteId, clock, clock + elapsed);
      clock := clock + elapsed;
      var c := Category(nextCategoryId, form.name, form.description, clock);
      AppendCategoryOk(categories, nextCategoryId, clock, c);
      MoreCategories(commands, categories, categories + [c], nextCommandId, clock);
      categories := categories + [c];
      nextCategoryId := nextCategoryId + 1;
    }

    /** `add_category`: the INSERT fails on a taken name and consumes no id. */
    method AddCategory(rawName: string, rawDescription: string, elapsed: nat) returns (status: Status)
      modifies this
      requires Valid()
      ensures Valid()
      ensures status == Done || status == Invalid || status == NameTaken
      ensures status == Invalid <==> AllSpace(rawName)
      ensures status == NameTaken <==> !AllSpace(rawName) && HasName(old(categories), Strip(rawName))
      ensures status != Done ==> unchanged(this)
      ensures status == Done ==>
        && clock == old(clock) + elapsed
        && categories == old(categories) + [Category(old(nextCategoryId), Strip(rawName), Strip(rawDescription), clock)]
        && nextCategoryId == old(nextCategoryId) + 1
        && commands == old(commands) && notes == old(notes)
        && nextCommandId == old(nextCommandId) && nextNoteId == old(nextNoteId)
    {
      var form := CategoryDialogResult(rawName, rawDescription);
      if form.None? {
        return Invalid;
      }
      if HasName(categories, form.value.name) {
        return NameTaken;
      }
      InsertCategory(form.value, elapsed);
      status := Done;
    }

    /** `edit_category` for the list line showing `selected`:
        `UPDATE categories SET name, description WHERE name = selected`. */
    method EditCategory(selected: string, rawName: string, rawDescription: string) returns (status: Status)
      modifies this
      requires Valid()
      ensures Valid()
      ensures status == Done || status == Invalid || status == NameTaken
      ensures status == Invalid <==> AllSpace(rawName)
      ensures status == NameTaken <==> !AllSpace(rawName) && RenameCollides(old(categories), selected, Strip(rawName))
      ensures status != Done ==> unchanged(this)
      ensures status == Done ==>
        && categories == RenameCategory(old(categories), selected, Strip(rawName), Strip(rawDescription))
        && CategoryIds(categories) == CategoryIds(old(categories))
        && commands == old(commands) && notes == old(notes) && clock == old(clock)
        && nextCategoryId == old(nextCategoryId) && nextCommandId == old(nextCommandId) && nextNoteId == old(nextNoteId)
    {
      var form := CategoryDialogResult(rawName, rawDescription);
      if form.None? {
        return Invalid;
      }
      if RenameCollides(categories, selected, form.value.name) {
        return NameTaken;
      }
      var renamed := RenameCategory(categories, selected, form.value.name, form.value.description);
      RenameOk(categories, nextCategoryId, clock, selected, form.value.name, form.value.description);
      MoreCategories(commands, categories, renamed, nextCommandId, clock);
      categories := renamed;
      status := Done;
    }

    /** `delete_category`: refused while commands reference it, otherwise
        confirmed and then `DELETE FROM categories WHERE name = selected`. */
    method DeleteCategory(selected: string, confirmed: bool) returns (status: Status)
      modifies this
      requires Valid()
      ensures Valid()
      ensures status == Done || status.InUse? || status == Declined
      ensures status.InUse? <==> ReferenceCount(old(commands), old(categories), selected) > 0
      ensures status.InUse? ==> status.count == ReferenceCount(old(commands), old(categories), selected)
      ensures status == Declined <==> ReferenceCount(old(commands), old(categories), selected) == 0 && !confirmed
      ensures status != Done ==> unchanged(this)
      ensures status == Done ==>
        && categories == RemoveWhere(old(categories), CategoryName, selected)
        && |categories| == |old(categories)| - (if HasName(old(categories), selected) then 1 else 0)
        && commands == old(commands) && notes == old(notes) && clock == old(clock)
        && nextCategoryId == old(nextCategoryId) && nextCommandId == old(nextCommandId) && nextNoteId == old(nextNoteId)
    {
      var count := ReferenceCount(commands, categories, selected);
      if count > 0 {
        return InUse(count);
      }
      if !confirmed {
        return Declined;
      }
      DeleteCategoryOk(commands, categories, nextCategoryId, nextCommandId, clock, selected);
      categories := RemoveWhere(categories, CategoryName, selected);
      status := Done;
    }

    // -------------------------------------------------------------------------
    // Note statements and handlers

    /** `INSERT INTO notes (title, content, category)`. */
    method InsertNote(form: NoteForm, elapsed: nat)
      modifies this
      requires Valid() && form.title != []
      ensures Valid()
      ensures clock == old(clock) + elapsed
      ensures notes == old(notes) + [Note(old(nextNoteId), form.title, form.content, form.category, clock, clock)]
      ensures nextNoteId == old(nextNoteId) + 1
      ensures categories == old(categories) && commands == old(commands)
      ensures nextCategoryId == old(nextCategoryId) && nextCommandId == old(nextCommandId)
    {
      LaterClock(categories, commands, notes, nextCategoryId, nextCommandId, nextNoteId, clock, clock + elapsed);
      clock := clock + elapsed;
      var n := Note(nextNoteId, form.title, form.content, form.category, clock, clock);
      AppendNoteOk(notes, nextNoteId, clock, n);
      notes := notes + [n];
      nextNoteId := nextNoteId + 1;
    }

    /** `UPDATE notes SET title, content, category, updated_at =
        CURRENT_TIMESTAMP WHERE id = ?` for the id of row `k`. */
    method UpdateNote(k: nat, form: NoteForm, elapsed: nat)
      modifies this
      requires Valid() && k < |notes| && form.title != []
      ensures Valid()
      ensures clock == old(clock) + elapsed
      ensures |notes| == |old(notes)|
      ensures notes[k] == Note(old(notes)[k].id, form.title, form.content, form.category, old(notes)[k].createdAt, clock)
      ensures forall i | 0 <= i < |notes| && i != k :: notes[i] == old(notes)[i]
      ensures categories == old(categories) && commands == old(commands)
      ensures nextCategoryId == old(nextCategoryId) && nextCommandId == old(nextCommandId) && nextNoteId == old(nextNoteId)
    {
      LaterClock(categories, commands, notes, nextCategoryId, nextCommandId, nextNoteId, clock, clock + elapsed);
      clock := clock + elapsed;
      EditNoteOnlyTarget(notes, nextNoteId, k, form, clock);
      EditNoteOk(notes, nextNoteId, clock, notes[k].id, form);
      notes := EditNoteRows(notes, notes[k].id, form, clock);
    }

    /** `add_note`. */
    method AddNote(rawTitle: string, rawContent: string, rawCategory: string, elapsed: nat) returns (status: Status)
      modifies this
      requires Valid()
      ensures Valid()
      ensures status == Done || status == Invalid
      ensures status == Invalid <==> AllSpace(rawTitle)
      ensures status == Invalid ==> unchanged(this)
      ensures status == Done ==>
        && clock == old(clock) + elapsed
        && notes == old(notes) + [Note(old(nextNoteId), Strip(rawTitle), Strip(rawContent), Strip(rawCategory), clock, clock)]
        && nextNoteId == old(nextNoteId) + 1
        && categories == old(categories) && commands == old(commands)
        && nextCategoryId == old(nextCategoryId) && nextCommandId == old(nextCommandId)
    {
      var form := NoteDialogResult(rawTitle, rawContent, rawCategory);
      if form.None? {
        return Invalid;
      }
      InsertNote(form.value, elapsed);
      status := Done;
    }

    /** `edit_note` for the list line showing `selected`: the first note with
        that title is fetched, the dialog shown, and the update made by id. */
    method EditNote(selected: string, rawTitle: string, rawContent: string, rawCategory: string, elapsed: nat)
      returns (status: Status)
      modifies this
      requires Valid()
      ensures Valid()
      ensures status == Done || status == NotFound || status == Invalid
      ensures status == NotFound <==> FirstWhere(old(notes), NoteTitle, selected).None?
      ensures status == Invalid <==> FirstWhere(old(notes), NoteTitle, selected).Some? && AllSpace(rawTitle)
      ensures status != Done ==> unchanged(this)
      ensures status == Done ==>
        var k := FirstWhere(old(notes), NoteTitle, selected).value;
        && clock == old(clock) + elapsed
        && |notes| == |old(notes)|
        && notes[k] == Note(old(notes)[k].id, Strip(rawTitle), Strip(rawContent), Strip(rawCategory),
             old(notes)[k].createdAt, clock)
        && (forall i | 0 <= i < |notes| && i != k :: notes[i] == old(notes)[i])
        && categories == old(categories) && commands == old(commands)
        && nextCategoryId == old(nextCategoryId) && nextCommandId == old(nextCommandId) && nextNoteId == old(nextNoteId)
    {
      var found := FirstWhere(notes, NoteTitle, selected);
      if found.None? {
        return NotFound;
      }
      var form := NoteDialogResult(rawTitle, rawContent, rawCategory);
      if form.None? {
        return Invalid;
      }
      UpdateNote(found.value, form.value, elapsed);
      status := Done;
    }

    /** `delete_note`: every note with the selected title goes. */
    method DeleteNote(selected: string, confirmed: bool) returns (status: Status)
      modifies this
      requires Valid()
      ensures Valid()
      ensures status == Done || status == Declined
      ensures status == Declined <==> !confirmed
      ensures status == Declined ==> unchanged(this)
      ensures status == Done ==>
        && notes == RemoveWhere(old(notes), NoteTitle, selected)
        && categories == old(categories) && commands == old(commands) && clock == old(clock)
        && nextCategoryId == old(nextCategoryId) && nextCommandId == old(nextCommandId) && nextNoteId == old(nextNoteId)
    {
      if !confirmed {
        return Declined;
      }
      RemoveNotesOk(notes, nextNoteId, clock, selected);
      notes := RemoveWhere(notes, NoteTitle, selected);
      status := Done;
    }

    // -------------------------------------------------------------------------
    // The read side

    /** `refresh_command_list` with the current state of the two list controls. */
    method ListCommands(filter: ListFilter) returns (views: seq<CommandView>)
      ensures views == Views(CommandRows(commands, categories, filter))
    {
      var rows := CommandRows(commands, categories, filter);
      views := RenderCommands(rows);
    }

    /** `quick_search` with the raw text of the search box. */
    method QuickSearch(filter: ListFilter, rawTerm: string) returns (views: seq<CommandView>)
      ensures views == SearchView(commands, categories, filter, rawTerm)
    {
      var term := Strip(rawTerm);
      if term == [] {
        views := ListCommands(filter);
        return;
      }
      var rows := SearchRows(commands, categories, term);
      if rows == [] {
        views := [NoResults];
      } else {
        views := RenderCommands(rows);
      }
    }

    /** `refresh_category_list`. */
    method ListCategories() returns (views: seq<CategoryView>)
      ensures views == CategoryViews(categories)
    {
      var rows := CategoryList(categories);
      views := [];
      var i := 0;
      while i < |rows|
        invariant 0 <= i <= |rows|
        invariant |views| == i
        invariant forall k | 0 <= k < i :: views[k] == CategoryView(rows[k].name, rows[k].description, rows[k].createdAt)
      {
        views := views + [CategoryView(rows[i].name, rows[i].description, rows[i].createdAt)];
        i := i + 1;
      }
    }

    /** `refresh_note_list` with the raw text of the category filter box. */
    method ListNotes(rawFilter: string) returns (views: seq<NoteView>)
      ensures views == NoteViews(NoteRows(notes, rawFilter))
    {
      var rows := NoteRows(notes, rawFilter);
      views := [];
      var i := 0;
      while i < |rows|
        invariant 0 <= i <= |rows|
        invariant |views| == i
        invariant forall k | 0 <= k < i :: views[k] == NoteView(rows[k].title, rows[k].category, rows[k].createdAt)
      {
        views := views + [NoteView(rows[i].title, rows[i].category, rows[i].createdAt)];
        i := i + 1;
      }
    }
  }
}
