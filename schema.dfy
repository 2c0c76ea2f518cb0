/** The three tables of the catalog (categories, commands, notes), the rules
    that hold between them, the dialog validation that guards every write, and
    the row-level effect of each UPDATE and INSERT the handlers issue. */
module Schema {
  import opened Rows
  import opened Text
  import opened Ordering

  /** A row of `categories`. `name` is UNIQUE NOT NULL. */
  datatype Category = Category(id: nat, name: string, description: string, createdAt: nat)

  /** A row of `commands`. `categoryId` is the unenforced foreign key; None is NULL. */
  datatype Command = Command(
    id: nat,
    name: string,
    text: string,
    categoryId: Option<nat>,
    description: string,
    isFavorite: int,
    createdAt: nat,
    updatedAt: nat)

  /** A row of `notes`. `category` is a free label, not a reference. */
  datatype Note = Note(id: nat, title: string, content: string, category: string, createdAt: nat, updatedAt: nat)

  function CategoryId(c: Category): nat { c.id }
  function CategoryName(c: Category): string { c.name }
  function CommandId(c: Command): nat { c.id }
  function CommandName(c: Command): string { c.name }
  function CommandCategory(c: Command): Option<nat> { c.categoryId }
  function NoteId(n: Note): nat { n.id }
  function NoteTitle(n: Note): string { n.title }

  // ---------------------------------------------------------------------------
  // Invariants

  /** The UNIQUE constraint on `categories.name`. */
  ghost predicate NamesUnique(cats: seq<Category>)
  {
    forall i, j | 0 <= i < j < |cats| :: cats[i].name != cats[j].name
  }

  /** NOT NULL plus the dialogs' checks: no category is named by the empty string. */
  ghost predicate NamesPresent(cats: seq<Category>)
  {
    forall i | 0 <= i < |cats| :: cats[i].name != []
  }

  ghost predicate FlagsBinary(cmds: seq<Command>)
  {
    forall i | 0 <= i < |cmds| :: cmds[i].isFavorite == 0 || cmds[i].isFavorite == 1
  }

  function CategoryIds(cats: seq<Category>): set<nat>
  {
    set c | c in cats :: c.id
  }

  /** Every non-NULL `category_id` names an existing category. SQLite does not
      enforce the FOREIGN KEY, so this rests on the handlers alone. */
  ghost predicate ReferencesResolve(cmds: seq<Command>, cats: seq<Category>)
  {
    forall i | 0 <= i < |cmds| && cmds[i].categoryId.Some? :: cmds[i].categoryId.value in CategoryIds(cats)
  }

  ghost predicate CategoryStamps(cats: seq<Category>, clock: nat)
  {
    forall i | 0 <= i < |cats| :: cats[i].createdAt <= clock
  }

  ghost predicate CommandStamps(cmds: seq<Command>, clock: nat)
  {
    forall i | 0 <= i < |cmds| :: cmds[i].createdAt <= cmds[i].updatedAt <= clock
  }

  ghost predicate NoteStamps(notes: seq<Note>, clock: nat)
  {
    forall i | 0 <= i < |notes| :: notes[i].createdAt <= notes[i].updatedAt <= clock
  }

  // ---------------------------------------------------------------------------
  // get_categories and the category lookup of CommandDialog.ok_clicked

  function CategoryKey(c: Category): Key { Key(0, c.name) }

  /** `SELECT id, name FROM categories ORDER BY name`. */
  function CategoryList(cats: seq<Category>): seq<Category>
  {
    Sort(cats, CategoryKey)
  }

  /** The combobox choice becomes the id of the first listed category with that
      name; an empty choice or an unmatched one becomes NULL. */
  function ResolveCategory(listed: seq<Category>, choice: string): Option<nat>
  {
    if choice == "" then None
    else match FirstWhere(listed, CategoryName, choice)
      case None => None
      case Some(i) => Some(listed[i].id)
  }

  /** Resolving against the name-ordered list finds an existing category with
      the chosen name, finds nothing exactly when the choice is empty or no
      category has that name, and, names being unique, finds the one category
      that has it. */
  lemma ResolveCategorySpec(cats: seq<Category>, choice: string)
    ensures var r := ResolveCategory(CategoryList(cats), choice);
      && (r.None? <==> choice == "" || forall i | 0 <= i < |cats| :: cats[i].name != choice)
      && (r.Some? ==> r.value in CategoryIds(cats))
      && (NamesUnique(cats) && choice != "" ==>
            forall i | 0 <= i < |cats| && cats[i].name == choice :: r == Some(cats[i].id))
  {
    var listed := CategoryList(cats);
    SortPermutes(cats, CategoryKey);
    var r := ResolveCategory(listed, choice);
    if choice != "" {
      match FirstWhere(listed, CategoryName, choice)
      case None =>
        forall i | 0 <= i < |cats| ensures cats[i].name != choice {
          assert cats[i] in multiset(listed);
          var j :| 0 <= j < |listed| && listed[j] == cats[i];
        }
      case Some(j) =>
        assert listed[j] in multiset(cats);
        var i :| 0 <= i < |cats| && cats[i] == listed[j];
        assert cats[i].name == choice;
        assert listed[j].id in CategoryIds(cats);
    }
  }

  /** What the handlers rely on: a resolved choice is an existing id. */
  lemma ResolvedExists(cats: seq<Category>, choice: string)
    ensures var r := ResolveCategory(CategoryList(cats), choice);
      r.Some? ==> r.value in CategoryIds(cats)
  {
    var listed := CategoryList(cats);
    SortPermutes(cats, CategoryKey);
    if choice != "" && FirstWhere(listed, CategoryName, choice).Some? {
      var j := FirstWhere(listed, CategoryName, choice).value;
      assert listed[j] in multiset(cats);
      assert listed[j] in cats;
    }
  }

  // ---------------------------------------------------------------------------
  // Dialog results (the `ok_clicked` handlers)

  datatype CommandForm = CommandForm(name: string, text: string, categoryId: Option<nat>, description: string)

  /** `CommandDialog.ok_clicked`: name, text and description are stripped, the
      category choice is resolved; a blank name or text keeps the dialog open
      (no result). */
  function CommandDialogResult(rawName: string, rawText: string, choice: string, rawDescription: string, listed: seq<Category>): (r: Option<CommandForm>)
    ensures r.None? <==> AllSpace(rawName) || AllSpace(rawText)
    ensures r.Some? ==> r.value.name != [] && r.value.text != []
  {
    var name := Strip(rawName);
    var text := Strip(rawText);
    if name == [] || text == [] then None
    else Some(CommandForm(name, text, ResolveCategory(listed, choice), Strip(rawDescription)))
  }

  datatype NoteForm = NoteForm(title: string, content: string, category: string)

  /** `NoteDialog.ok_clicked`: all three fields are stripped; a blank title
      keeps the dialog open. */
  function NoteDialogResult(rawTitle: string, rawContent: string, rawCategory: string): (r: Option<NoteForm>)
    ensures r.None? <==> AllSpace(rawTitle)
    ensures r.Some? ==> r.value.title != []
  {
    var title := Strip(rawTitle);
    if title == [] then None else Some(NoteForm(title, Strip(rawContent), Strip(rawCategory)))
  }

  datatype CategoryForm = CategoryForm(name: string, description: string)

  /** The `ok_clicked` of the add and edit category dialogs. */
  function CategoryDialogResult(rawName: string, rawDescription: string): (r: Option<CategoryForm>)
    ensures r.None? <==> AllSpace(rawName)
    ensures r.Some? ==> r.value.name != []
  {
    var name := Strip(rawName);
    if name == [] then None else Some(CategoryForm(name, Strip(rawDescription)))
  }

  // ---------------------------------------------------------------------------
  // Seeding: `INSERT OR IGNORE INTO categories (name, description)` per default

  const DefaultCategories: seq<(string, string)> := [
    ("系统命令", "系统管理相关命令"),
    ("网络命令", "网络诊断和配置命令"),
    ("开发工具", "开发和编译相关命令"),
    ("数据库", "数据库操作命令"),
    ("其他", "其他类别命令")
  ]

  lemma DefaultNamesPresent()
    ensures forall k | 0 <= k < |DefaultCategories| :: DefaultCategories[k].0 != []
  {
  }

  predicate HasName(cats: seq<Category>, name: string)
  {
    FirstWhere(cats, CategoryName, name).Some?
  }

  /** One `INSERT OR IGNORE`: a name already present leaves the table as it
      was; otherwise a row is appended with the next id. Either way the
      AUTOINCREMENT counter moves on: SQLite draws the rowid, and raises the
      `sqlite_sequence` maximum, before the UNIQUE conflict is met and ignored. */
  function InsertOrIgnore(cats: seq<Category>, next: nat, name: string, description: string, now: nat): (seq<Category>, nat)
  {
    if HasName(cats, name) then (cats, next + 1)
    else (cats + [Category(next, name, description, now)], next + 1)
  }

  function SeedAll(cats: seq<Category>, next: nat, defaults: seq<(string, string)>, now: nat): (seq<Category>, nat)
    decreases |defaults|
  {
    if defaults == [] then (cats, next)
    else
      var (c, n) := InsertOrIgnore(cats, next, defaults[0].0, defaults[0].1, now);
      SeedAll(c, n, defaults[1..], now)
  }

  /** Seeding only appends: every existing row stays where it was, unchanged,
      and the counter moves on by one per default, inserted or ignored. */
  lemma {:induction false} SeedKeepsRows(cats: seq<Category>, next: nat, defaults: seq<(string, string)>, now: nat)
    ensures var (c, n) := SeedAll(cats, next, defaults, now);
      |cats| <= |c| && c[..|cats|] == cats && n == next + |defaults|
    decreases |defaults|
  {
    if defaults != [] {
      var (c1, n1) := InsertOrIgnore(cats, next, defaults[0].0, defaults[0].1, now);
      SeedKeepsRows(c1, n1, defaults[1..], now);
      var (c, n) := SeedAll(c1, n1, defaults[1..], now);
      assert c[..|cats|] == c[..|c1|][..|cats|];
    }
  }

  lemma NameStaysPresent(cats: seq<Category>, c: seq<Category>, name: string)
    requires |cats| <= |c| && c[..|cats|] == cats
    requires HasName(cats, name)
    ensures HasName(c, name)
  {
    var i := FirstWhere(cats, CategoryName, name).value;
    assert c[i] == cats[i];
  }

  /** After seeding, every default name is present. */
  lemma {:induction false} SeedCovers(cats: seq<Category>, next: nat, defaults: seq<(string, string)>, now: nat)
    ensures forall k | 0 <= k < |defaults| :: HasName(SeedAll(cats, next, defaults, now).0, defaults[k].0)
    decreases |defaults|
  {
    if defaults != [] {
      var (c1, n1) := InsertOrIgnore(cats, next, defaults[0].0, defaults[0].1, now);
      SeedCovers(c1, n1, defaults[1..], now);
      SeedKeepsRows(c1, n1, defaults[1..], now);
      var c := SeedAll(c1, n1, defaults[1..], now).0;
      assert HasName(c1, defaults[0].0) by {
        if !HasName(cats, defaults[0].0) {
          assert c1[|cats|].name == defaults[0].0;
        }
      }
      NameStaysPresent(c1, c, defaults[0].0);
      forall k | 0 <= k < |defaults| ensures HasName(c, defaults[k].0) {
        if k > 0 { assert defaults[k] == defaults[1..][k - 1]; }
      }
    }
  }

  /** When every default name is already present, seeding leaves the table as
      it was; only the counter moves on, by one per ignored insert. */
  lemma {:induction false} SeedPresentIsNoOp(cats: seq<Category>, next: nat, defaults: seq<(string, string)>, now: nat)
    requires forall k | 0 <= k < |defaults| :: HasName(cats, defaults[k].0)
    ensures SeedAll(cats, next, defaults, now) == (cats, next + |defaults|)
    decreases |defaults|
  {
    if defaults != [] {
      assert HasName(cats, defaults[0].0);
      forall k | 0 <= k < |defaults[1..]| ensures HasName(cats, defaults[1..][k].0) {
        assert defaults[1..][k] == defaults[k + 1];
      }
      SeedPresentIsNoOp(cats, next + 1, defaults[1..], now);
    }
  }

  /** Running the seeding again, at any later time, leaves the table as it
      was; the counter moves on by the number of defaults. */
  lemma SeedIdempotent(cats: seq<Category>, next: nat, defaults: seq<(string, string)>, now: nat, later: nat)
    ensures var (c, n) := SeedAll(cats, next, defaults, now);
      SeedAll(c, n, defaults, later) == (c, n + |defaults|)
  {
    var (c, n) := SeedAll(cats, next, defaults, now);
    SeedCovers(cats, next, defaults, now);
    SeedPresentIsNoOp(c, n, defaults, later);
  }

  /** An `INSERT OR IGNORE` keeps ids in order and names unique. */
  lemma InsertOrIgnoreKeeps(cats: seq<Category>, next: nat, name: string, description: string, now: nat, clock: nat)
    requires Keyed(cats, CategoryId, next) && NamesUnique(cats) && NamesPresent(cats) && CategoryStamps(cats, clock)
    requires now <= clock && next >= 1 && name != []
    ensures var (c, n) := InsertOrIgnore(cats, next, name, description, now);
      && Keyed(c, CategoryId, n) && NamesUnique(c) && NamesPresent(c) && CategoryStamps(c, clock)
      && CategoryIds(cats) <= CategoryIds(c) && n >= 1
  {
    if !HasName(cats, name) {
      AppendCategoryKeeps(cats, next, Category(next, name, description, now), clock);
    } else {
      KeyedRaise(cats, CategoryId, next);
    }
  }

  /** Inserting a category under a name not yet taken, with the next id. */
  lemma AppendCategoryKeeps(cats: seq<Category>, next: nat, c: Category, clock: nat)
    requires Keyed(cats, CategoryId, next) && NamesUnique(cats) && NamesPresent(cats) && CategoryStamps(cats, clock)
    requires c.id == next && next >= 1 && c.name != [] && !HasName(cats, c.name) && c.createdAt <= clock
    ensures var r := cats + [c];
      && Keyed(r, CategoryId, next + 1) && NamesUnique(r) && NamesPresent(r) && CategoryStamps(r, clock)
      && CategoryIds(cats) <= CategoryIds(r)
  {
    var r := cats + [c];
    AppendKeyed(cats, CategoryId, next, c);
    assert forall i | 0 <= i < |cats| :: cats[i].name != c.name;
    forall i, j | 0 <= i < j < |r| ensures r[i].name != r[j].name {
      assert r[i] == cats[i];
      if j < |cats| { assert r[j] == cats[j]; }
    }
    forall i | 0 <= i < |r| ensures r[i].name != [] && r[i].createdAt <= clock {
      if i < |cats| { assert r[i] == cats[i]; }
    }
    forall x | x in cats ensures x in r { }
  }

  /** Seeding keeps ids in order and names unique and non-empty, and drops no
      id a command could reference. */
  lemma {:induction false} SeedKeeps(cats: seq<Category>, next: nat, defaults: seq<(string, string)>, now: nat, clock: nat)
    requires Keyed(cats, CategoryId, next) && NamesUnique(cats) && NamesPresent(cats) && CategoryStamps(cats, clock)
    requires now <= clock && next >= 1
    requires forall k | 0 <= k < |defaults| :: defaults[k].0 != []
    ensures var (c, n) := SeedAll(cats, next, defaults, now);
      && Keyed(c, CategoryId, n) && NamesUnique(c) && NamesPresent(c) && CategoryStamps(c, clock)
      && CategoryIds(cats) <= CategoryIds(c) && n >= 1
    decreases |defaults|
  {
    if defaults != [] {
      var (c1, n1) := InsertOrIgnore(cats, next, defaults[0].0, defaults[0].1, now);
      InsertOrIgnoreKeeps(cats, next, defaults[0].0, defaults[0].1, now, clock);
      assert forall k | 0 <= k < |defaults[1..]| :: defaults[1..][k] == defaults[k + 1];
      SeedKeeps(c1, n1, defaults[1..], now, clock);
    }
  }

  // ---------------------------------------------------------------------------
  // Category rename and delete

  /** `UPDATE categories SET name = ?, description = ? WHERE name = ?`. */
  function RenameCategory(cats: seq<Category>, oldName: string, newName: string, description: string): (r: seq<Category>)
    ensures |r| == |cats|
  {
    seq(|cats|, i requires 0 <= i < |cats| =>
      if cats[i].name == oldName then cats[i].(name := newName, description := description) else cats[i])
  }

  /** The UPDATE violates UNIQUE: it changes a row and the new name is held by
      a row it does not change. */
  predicate RenameCollides(cats: seq<Category>, oldName: string, newName: string)
  {
    HasName(cats, oldName) && newName != oldName && HasName(cats, newName)
  }

  /** A rename keeps every id and creation time (so references to the category
      survive it), and when it does not collide the names stay unique. */
  lemma RenameKeeps(cats: seq<Category>, oldName: string, newName: string, description: string)
    requires NamesUnique(cats)
    requires !RenameCollides(cats, oldName, newName)
    ensures var r := RenameCategory(cats, oldName, newName, description);
      && NamesUnique(r)
      && CategoryIds(r) == CategoryIds(cats)
      && forall i | 0 <= i < |cats| :: r[i].id == cats[i].id && r[i].createdAt == cats[i].createdAt
  {
    var r := RenameCategory(cats, oldName, newName, description);
    forall i, j | 0 <= i < j < |r| ensures r[i].name != r[j].name {
      if cats[i].name == oldName && cats[j].name != oldName && newName != oldName {
        assert !HasName(cats, newName) by { assert HasName(cats, oldName); }
        assert FirstWhere(cats, CategoryName, newName).None?;
      } else if cats[j].name == oldName && cats[i].name != oldName && newName != oldName {
        assert !HasName(cats, newName) by { assert HasName(cats, oldName); }
        assert FirstWhere(cats, CategoryName, newName).None?;
      }
    }
    forall x | x in CategoryIds(r) ensures x in CategoryIds(cats) {
      var c :| c in r && c.id == x;
      var i :| 0 <= i < |r| && r[i] == c;
      assert cats[i] in cats;
    }
    forall x | x in CategoryIds(cats) ensures x in CategoryIds(r) {
      var c :| c in cats && c.id == x;
      var i :| 0 <= i < |cats| && cats[i] == c;
      assert r[i] in r;
    }
  }

  /** `SELECT COUNT(*) FROM commands WHERE category_id = (SELECT id FROM
      categories WHERE name = ?)`: a missing category makes the subquery NULL
      and the count 0. */
  function ReferenceCount(cmds: seq<Command>, cats: seq<Category>, name: string): nat
  {
    match FirstWhere(cats, CategoryName, name)
    case None => 0
    case Some(i) => CountWhere(cmds, CommandCategory, Some(cats[i].id))
  }

  /** The delete guard is sound: when no command references the category,
      deleting every category with that name leaves every reference resolving;
      and it is exact: a positive count means some command does reference it. */
  lemma DeleteGuard(cmds: seq<Command>, cats: seq<Category>, name: string)
    requires NamesUnique(cats) && ReferencesResolve(cmds, cats)
    requires forall i, j | 0 <= i < j < |cats| :: cats[i].id != cats[j].id
    ensures ReferenceCount(cmds, cats, name) == 0 ==>
      ReferencesResolve(cmds, RemoveWhere(cats, CategoryName, name))
    ensures ReferenceCount(cmds, cats, name) > 0 ==>
      exists i, j | 0 <= i < |cmds| && 0 <= j < |cats| :: cats[j].name == name && cmds[i].categoryId == Some(cats[j].id)
  {
    var r := RemoveWhere(cats, CategoryName, name);
    RemoveWhereSpec(cats, CategoryName, name);
    match FirstWhere(cats, CategoryName, name)
    case None =>
      forall i | 0 <= i < |cats| ensures cats[i] in r { }
      forall i | 0 <= i < |cmds| && cmds[i].categoryId.Some? ensures cmds[i].categoryId.value in CategoryIds(r) {
        var c :| c in cats && c.id == cmds[i].categoryId.value;
        var j :| 0 <= j < |cats| && cats[j] == c;
        assert cats[j] in r;
      }
    case Some(k) =>
      if ReferenceCount(cmds, cats, name) == 0 {
        forall i | 0 <= i < |cmds| && cmds[i].categoryId.Some? ensures cmds[i].categoryId.value in CategoryIds(r) {
          var c :| c in cats && c.id == cmds[i].categoryId.value;
          var j :| 0 <= j < |cats| && cats[j] == c;
          assert cmds[i].categoryId != Some(cats[k].id);
          assert j != k;
          assert cats[j].name != name;
          assert cats[j] in r;
        }
      } else {
        var i :| 0 <= i < |cmds| && cmds[i].categoryId == Some(cats[k].id);
      }
  }

  // ---------------------------------------------------------------------------
  // Command updates

  /** `UPDATE commands SET name, command, category_id, description,
      updated_at = CURRENT_TIMESTAMP WHERE id = ?`. */
  function EditCommandRows(cmds: seq<Command>, id: nat, form: CommandForm, now: nat): (r: seq<Command>)
    ensures |r| == |cmds|
  {
    seq(|cmds|, i requires 0 <= i < |cmds| =>
      if cmds[i].id == id
      then cmds[i].(name := form.name, text := form.text, categoryId := form.categoryId,
                    description := form.description, updatedAt := now)
      else cmds[i])
  }

  function Flip(flag: int): int { if flag == 0 then 1 else 0 }

  /** `UPDATE commands SET is_favorite = ? WHERE id = ?` with the flipped value. */
  function FlipFavorite(cmds: seq<Command>, id: nat): (r: seq<Command>)
    ensures |r| == |cmds|
  {
    seq(|cmds|, i requires 0 <= i < |cmds| =>
      if cmds[i].id == id then cmds[i].(isFavorite := Flip(cmds[i].isFavorite)) else cmds[i])
  }

  /** toggle_favorite: resolve the name to the first command carrying it, then
      flip that command's flag; an unknown name changes nothing. */
  function ToggleByName(cmds: seq<Command>, name: string): seq<Command>
  {
    match FirstWhere(cmds, CommandName, name)
    case None => cmds
    case Some(i) => FlipFavorite(cmds, cmds[i].id)
  }

  ghost predicate IdsUnique(cmds: seq<Command>)
  {
    forall i, j | 0 <= i < j < |cmds| :: cmds[i].id != cmds[j].id
  }

  /** Toggling touches only the first command with that name, and only its
      flag (not even `updated_at`): 0 becomes 1 and anything else becomes 0. */
  lemma ToggleChangesOnlyFlag(cmds: seq<Command>, name: string)
    requires IdsUnique(cmds)
    ensures var r := ToggleByName(cmds, name);
      && |r| == |cmds|
      && match FirstWhere(cmds, CommandName, name)
         case None => r == cmds
         case Some(k) =>
           && r[k] == cmds[k].(isFavorite := if cmds[k].isFavorite == 0 then 1 else 0)
           && forall i | 0 <= i < |cmds| && i != k :: r[i] == cmds[i]
  {
  }

  /** Toggling the same name twice restores the table when flags are 0/1. */
  lemma ToggleTwice(cmds: seq<Command>, name: string)
    requires IdsUnique(cmds) && FlagsBinary(cmds)
    ensures ToggleByName(ToggleByName(cmds, name), name) == cmds
  {
    var r := ToggleByName(cmds, name);
    match FirstWhere(cmds, CommandName, name)
    case None =>
    case Some(k) =>
      assert forall i | 0 <= i < |cmds| :: r[i].name == cmds[i].name && r[i].id == cmds[i].id;
      assert FirstWhere(r, CommandName, name) == Some(k) by {
        FirstWhereSameKeys(cmds, r, name);
      }
      var rr := ToggleByName(r, name);
      assert rr == FlipFavorite(r, cmds[k].id);
      forall i | 0 <= i < |cmds| ensures rr[i] == cmds[i] {
        if cmds[i].id == cmds[k].id {
          assert Flip(Flip(cmds[i].isFavorite)) == cmds[i].isFavorite;
        }
      }
  }

  lemma {:induction false} FirstWhereSameKeys(a: seq<Command>, b: seq<Command>, name: string)
    requires |a| == |b|
    requires forall i | 0 <= i < |a| :: a[i].name == b[i].name
    ensures FirstWhere(a, CommandName, name) == FirstWhere(b, CommandName, name)
  {
    if a != [] {
      FirstWhereSameKeys(a[1..], b[1..], name);
    }
  }

  /** Flipping a flag keeps flags binary and leaves ids, names and references alone. */
  lemma FlipKeeps(cmds: seq<Command>, cats: seq<Category>, id: nat, next: nat, clock: nat)
    requires Keyed(cmds, CommandId, next) && FlagsBinary(cmds) && ReferencesResolve(cmds, cats) && CommandStamps(cmds, clock)
    ensures var r := FlipFavorite(cmds, id);
      Keyed(r, CommandId, next) && FlagsBinary(r) && ReferencesResolve(r, cats) && CommandStamps(r, clock)
  {
  }

  // ---------------------------------------------------------------------------
  // Note updates

  /** `UPDATE notes SET title, content, category, updated_at = CURRENT_TIMESTAMP
      WHERE id = ?`. */
  function EditNoteRows(notes: seq<Note>, id: nat, form: NoteForm, now: nat): (r: seq<Note>)
    ensures |r| == |notes|
  {
    seq(|notes|, i requires 0 <= i < |notes| =>
      if notes[i].id == id
      then notes[i].(title := form.title, content := form.content, category := form.category, updatedAt := now)
      else notes[i])
  }

  /** An edit by the id of row `k` rewrites that row's four editable columns
      and its `updated_at`, and nothing else: not its id, flag or
      `created_at`, and no other row. */
  lemma EditCommandOnlyTarget(cmds: seq<Command>, next: nat, k: nat, form: CommandForm, now: nat)
    requires Keyed(cmds, CommandId, next) && k < |cmds|
    ensures var r := EditCommandRows(cmds, cmds[k].id, form, now);
      && r[k] == Command(cmds[k].id, form.name, form.text, form.categoryId, form.description,
                         cmds[k].isFavorite, cmds[k].createdAt, now)
      && forall i | 0 <= i < |cmds| && i != k :: r[i] == cmds[i]
  {
    forall i | 0 <= i < |cmds| && i != k ensures cmds[i].id != cmds[k].id {
      if i < k { assert cmds[i].id < cmds[k].id; } else { assert cmds[k].id < cmds[i].id; }
    }
  }

  /** The same for a note edit. */
  lemma EditNoteOnlyTarget(notes: seq<Note>, next: nat, k: nat, form: NoteForm, now: nat)
    requires Keyed(notes, NoteId, next) && k < |notes|
    ensures var r := EditNoteRows(notes, notes[k].id, form, now);
      && r[k] == Note(notes[k].id, form.title, form.content, form.category, notes[k].createdAt, now)
      && forall i | 0 <= i < |notes| && i != k :: r[i] == notes[i]
  {
    forall i | 0 <= i < |notes| && i != k ensures notes[i].id != notes[k].id {
      if i < k { assert notes[i].id < notes[k].id; } else { assert notes[k].id < notes[i].id; }
    }
  }

  /** An index whose row is the first with that name is the one FirstWhere finds. */
  lemma FirstCommandNamed(cmds: seq<Command>, name: string, m: nat)
    requires m < |cmds| && cmds[m].name == name
    requires forall j | 0 <= j < m :: cmds[j].name != name
    ensures FirstWhere(cmds, CommandName, name) == Some(m)
  {
  }

}
