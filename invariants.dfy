/** The catalog invariant, one predicate per table, and one lemma per kind of
    write showing that the write keeps it. */
module Invariants {
  import opened Rows
  import opened Schema

  ghost predicate CategoriesOk(cats: seq<Category>, next: nat, clock: nat)
  {
    && next >= 1
    && Keyed(cats, CategoryId, next)
    && NamesUnique(cats)
    && NamesPresent(cats)
    && CategoryStamps(cats, clock)
  }

  /** NOT NULL plus CommandDialog's checks: every command has a name and a text. */
  ghost predicate TextsPresent(cmds: seq<Command>)
  {
    forall i | 0 <= i < |cmds| :: cmds[i].name != [] && cmds[i].text != []
  }

  ghost predicate CommandsOk(cmds: seq<Command>, cats: seq<Category>, next: nat, clock: nat)
  {
    && next >= 1
    && Keyed(cmds, CommandId, next)
    && FlagsBinary(cmds)
    && ReferencesResolve(cmds, cats)
    && TextsPresent(cmds)
    && CommandStamps(cmds, clock)
  }

  /** NOT NULL plus NoteDialog's check: every note has a title. */
  ghost predicate TitlesPresent(notes: seq<Note>)
  {
    forall i | 0 <= i < |notes| :: notes[i].title != []
  }

  ghost predicate NotesOk(notes: seq<Note>, next: nat, clock: nat)
  {
    && next >= 1
    && Keyed(notes, NoteId, next)
    && TitlesPresent(notes)
    && NoteStamps(notes, clock)
  }

  lemma LaterClock(cats: seq<Category>, cmds: seq<Command>, notes: seq<Note>, nc: nat, nm: nat, nn: nat, clock: nat, later: nat)
    requires CategoriesOk(cats, nc, clock) && CommandsOk(cmds, cats, nm, clock) && NotesOk(notes, nn, clock)
    requires clock <= later
    ensures CategoriesOk(cats, nc, later) && CommandsOk(cmds, cats, nm, later) && NotesOk(notes, nn, later)
  {
  }

  // ---------------------------------------------------------------------------
  // Categories

  /** An insert of a fresh name with the next id. */
  lemma AppendCategoryOk(cats: seq<Category>, next: nat, clock: nat, c: Category)
    requires CategoriesOk(cats, next, clock)
    requires c.id == next && c.name != [] && !HasName(cats, c.name) && c.createdAt <= clock
    ensures CategoriesOk(cats + [c], next + 1, clock)
    ensures CategoryIds(cats) <= CategoryIds(cats + [c])
  {
    AppendCategoryKeeps(cats, next, c, clock);
  }

  /** A command table stays consistent when categories are only added. */
  lemma MoreCategories(cmds: seq<Command>, cats: seq<Category>, cats': seq<Category>, next: nat, clock: nat)
    requires CommandsOk(cmds, cats, next, clock)
    requires CategoryIds(cats) <= CategoryIds(cats')
    ensures CommandsOk(cmds, cats', next, clock)
  {
  }

  lemma RenameOk(cats: seq<Category>, next: nat, clock: nat, oldName: string, newName: string, description: string)
    requires CategoriesOk(cats, next, clock)
    requires newName != [] && !RenameCollides(cats, oldName, newName)
    ensures CategoriesOk(RenameCategory(cats, oldName, newName, description), next, clock)
    ensures CategoryIds(RenameCategory(cats, oldName, newName, description)) == CategoryIds(cats)
  {
    RenameKeeps(cats, oldName, newName, description);
  }

  /** The guarded delete keeps both tables consistent. */
  lemma DeleteCategoryOk(cmds: seq<Command>, cats: seq<Category>, nc: nat, nm: nat, clock: nat, name: string)
    requires CategoriesOk(cats, nc, clock) && CommandsOk(cmds, cats, nm, clock)
    requires ReferenceCount(cmds, cats, name) == 0
    ensures CategoriesOk(RemoveWhere(cats, CategoryName, name), nc, clock)
    ensures CommandsOk(cmds, RemoveWhere(cats, CategoryName, name), nm, clock)
    ensures |RemoveWhere(cats, CategoryName, name)| == |cats| - (if HasName(cats, name) then 1 else 0)
  {
    var r := RemoveWhere(cats, CategoryName, name);
    RemoveWhereSpec(cats, CategoryName, name);
    forall i, j | 0 <= i < j < |cats| ensures cats[i].id != cats[j].id {
      assert cats[i].id < cats[j].id;
    }
    DeleteGuard(cmds, cats, name);
    RemoveKeepsKeyed(cats, CategoryName, name, CategoryId, nc);
    CountWhereUnique(cats, CategoryName, name);
    RemoveKeepsNames(cats, nc, name);
    forall i | 0 <= i < |r| ensures r[i].createdAt <= clock {
      var a :| 0 <= a < |cats| && cats[a] == r[i];
    }
  }

  /** The survivors of a delete are distinct rows of the table, in the same
      order, so their names stay unique and non-empty. */
  lemma RemoveKeepsNames(cats: seq<Category>, next: nat, name: string)
    requires Keyed(cats, CategoryId, next) && NamesUnique(cats) && NamesPresent(cats)
    ensures NamesUnique(RemoveWhere(cats, CategoryName, name)) && NamesPresent(RemoveWhere(cats, CategoryName, name))
  {
    var r := RemoveWhere(cats, CategoryName, name);
    RemoveWhereSpec(cats, CategoryName, name);
    RemoveKeepsKeyed(cats, CategoryName, name, CategoryId, next);
    forall i, j | 0 <= i < j < |r| ensures r[i].name != r[j].name {
      assert r[i].id < r[j].id;
      LowerIdOtherName(cats, next, r[i], r[j]);
    }
    forall i | 0 <= i < |r| ensures r[i].name != [] {
      var a :| 0 <= a < |cats| && cats[a] == r[i];
    }
  }

  /** Two rows of a keyed table with different ids sit at different places,
      so unique names tell them apart. */
  lemma LowerIdOtherName(cats: seq<Category>, next: nat, x: Category, y: Category)
    requires Keyed(cats, CategoryId, next) && NamesUnique(cats)
    requires x in cats && y in cats && x.id < y.id
    ensures x.name != y.name
  {
    var a :| 0 <= a < |cats| && cats[a] == x;
    var b :| 0 <= b < |cats| && cats[b] == y;
    assert a < b;
  }

  // ---------------------------------------------------------------------------
  // Commands

  lemma AppendCommandOk(cmds: seq<Command>, cats: seq<Category>, next: nat, clock: nat, c: Command)
    requires CommandsOk(cmds, cats, next, clock)
    requires c.id == next && c.name != [] && c.text != [] && c.isFavorite == 0
    requires c.createdAt <= c.updatedAt <= clock
    requires c.categoryId.Some? ==> c.categoryId.value in CategoryIds(cats)
    ensures CommandsOk(cmds + [c], cats, next + 1, clock)
  {
    var r := cmds + [c];
    AppendKeyed(cmds, CommandId, next, c);
    assert forall i | 0 <= i < |cmds| :: r[i] == cmds[i];
  }

  lemma EditCommandOk(cmds: seq<Command>, cats: seq<Category>, next: nat, clock: nat, id: nat, form: CommandForm)
    requires CommandsOk(cmds, cats, next, clock)
    requires form.name != [] && form.text != []
    requires form.categoryId.Some? ==> form.categoryId.value in CategoryIds(cats)
    ensures CommandsOk(EditCommandRows(cmds, id, form, clock), cats, next, clock)
  {
  }

  lemma RemoveCommandOk(cmds: seq<Command>, cats: seq<Category>, next: nat, clock: nat, id: nat)
    requires CommandsOk(cmds, cats, next, clock)
    ensures CommandsOk(RemoveWhere(cmds, CommandId, id), cats, next, clock)
  {
    var r := RemoveWhere(cmds, CommandId, id);
    RemoveWhereSpec(cmds, CommandId, id);
    RemoveKeepsKeyed(cmds, CommandId, id, CommandId, next);
    forall i | 0 <= i < |r| ensures
      && (r[i].isFavorite == 0 || r[i].isFavorite == 1)
      && (r[i].categoryId.Some? ==> r[i].categoryId.value in CategoryIds(cats))
      && r[i].name != [] && r[i].text != []
      && r[i].createdAt <= r[i].updatedAt <= clock
    {
      var a :| 0 <= a < |cmds| && cmds[a] == r[i];
    }
  }

  lemma FlipOk(cmds: seq<Command>, cats: seq<Category>, next: nat, clock: nat, id: nat)
    requires CommandsOk(cmds, cats, next, clock)
    ensures CommandsOk(FlipFavorite(cmds, id), cats, next, clock)
  {
    FlipKeeps(cmds, cats, id, next, clock);
  }

  // ---------------------------------------------------------------------------
  // Notes

  lemma AppendNoteOk(notes: seq<Note>, next: nat, clock: nat, n: Note)
    requires NotesOk(notes, next, clock)
    requires n.id == next && n.title != [] && n.createdAt <= n.updatedAt <= clock
    ensures NotesOk(notes + [n], next + 1, clock)
  {
    var r := notes + [n];
    AppendKeyed(notes, NoteId, next, n);
    assert forall i | 0 <= i < |notes| :: r[i] == notes[i];
  }

  lemma EditNoteOk(notes: seq<Note>, next: nat, clock: nat, id: nat, form: NoteForm)
    requires NotesOk(notes, next, clock)
    requires form.title != []
    ensures NotesOk(EditNoteRows(notes, id, form, clock), next, clock)
  {
  }

  lemma RemoveNotesOk(notes: seq<Note>, next: nat, clock: nat, title: string)
    requires NotesOk(notes, next, clock)
    ensures NotesOk(RemoveWhere(notes, NoteTitle, title), next, clock)
  {
    var r := RemoveWhere(notes, NoteTitle, title);
    RemoveWhereSpec(notes, NoteTitle, title);
    RemoveKeepsKeyed(notes, NoteTitle, title, NoteId, next);
    forall i | 0 <= i < |r| ensures r[i].title != [] && r[i].createdAt <= r[i].updatedAt <= clock {
      var a :| 0 <= a < |notes| && notes[a] == r[i];
    }
  }
}
