/** The read side: the rows the command list, the quick search, the category
    list and the note list fetch, in the order the queries ask for, and how a
    fetched command row is shown. */
module Queries {
  import opened Rows
  import opened Ordering
  import opened Text
  import opened Display
  import opened Schema

  /** `SELECT c.name, c.command, cat.name, c.description, c.is_favorite FROM
      commands c LEFT JOIN categories cat ON c.category_id = cat.id`, one row. */
  datatype CommandRow = CommandRow(name: string, text: string, categoryName: Option<string>, description: string, isFavorite: int)

  /** The category name the LEFT JOIN finds for a `category_id`: NULL for a
      NULL id and for an id no category has (the reference is not enforced). */
  function CategoryNameOf(cats: seq<Category>, id: Option<nat>): Option<string>
  {
    match id
    case None => None
    case Some(k) =>
      match FirstWhere(cats, CategoryId, k)
      case None => None
      case Some(i) => Some(cats[i].name)
  }

  function JoinRow(cats: seq<Category>, c: Command): CommandRow
  {
    CommandRow(c.name, c.text, CategoryNameOf(cats, c.categoryId), c.description, c.isFavorite)
  }

  /** `c.is_favorite DESC, c.name`. */
  function RowKey(r: CommandRow): Key { Key(r.isFavorite, r.name) }

  // ---------------------------------------------------------------------------
  // refresh_command_list

  const AllCategories := "全部"

  /** The two list controls: the favourites-only check box and the category
      combobox. */
  datatype ListFilter = ListFilter(favoriteOnly: bool, category: string)

  predicate CategoryFilterActive(f: ListFilter)
  {
    f.category != "" && f.category != AllCategories
  }

  /** The WHERE clause: the active conditions joined with AND. */
  predicate Passes(f: ListFilter, r: CommandRow)
  {
    && (f.favoriteOnly ==> r.isFavorite == 1)
    && (CategoryFilterActive(f) ==> r.categoryName == Some(f.category))
  }

  /** The joined rows that pass the filter, in table order. */
  function Selected(cmds: seq<Command>, cats: seq<Category>, f: ListFilter): (r: seq<CommandRow>)
    ensures |r| <= |cmds|
    ensures forall i | 0 <= i < |r| :: Passes(f, r[i]) && exists j | 0 <= j < |cmds| :: r[i] == JoinRow(cats, cmds[j])
    ensures forall j | 0 <= j < |cmds| && Passes(f, JoinRow(cats, cmds[j])) :: JoinRow(cats, cmds[j]) in r
  {
    if cmds == [] then []
    else
      var x := JoinRow(cats, cmds[0]);
      var rest := Selected(cmds[1..], cats, f);
      assert forall j | 0 <= j < |cmds[1..]| :: cmds[1..][j] == cmds[j + 1];
      (if Passes(f, x) then [x] else []) + rest
  }

  /** Every command joined with its category, one row per command, in table
      order: the LEFT JOIN without a WHERE clause. */
  function Joined(cmds: seq<Command>, cats: seq<Category>): (r: seq<CommandRow>)
    ensures |r| == |cmds|
    ensures forall j | 0 <= j < |cmds| :: r[j] == JoinRow(cats, cmds[j])
  {
    seq(|cmds|, j requires 0 <= j < |cmds| => JoinRow(cats, cmds[j]))
  }

  lemma JoinedCons(cmds: seq<Command>, cats: seq<Category>)
    requires cmds != []
    ensures Joined(cmds, cats) == [JoinRow(cats, cmds[0])] + Joined(cmds[1..], cats)
  {
  }

  /** Each joined row that passes the filter is selected exactly as often as
      the join produces it, and no other row is selected. */
  lemma {:induction false} SelectedCounts(cmds: seq<Command>, cats: seq<Category>, f: ListFilter)
    ensures forall x :: multiset(Selected(cmds, cats, f))[x] == if Passes(f, x) then multiset(Joined(cmds, cats))[x] else 0
  {
    if cmds != [] {
      SelectedCounts(cmds[1..], cats, f);
      JoinedCons(cmds, cats);
    }
  }

  /** The rows of the command list query, in its ORDER BY. */
  function CommandRows(cmds: seq<Command>, cats: seq<Category>, f: ListFilter): seq<CommandRow>
  {
    Sort(Selected(cmds, cats, f), RowKey)
  }

  /** The command list holds exactly the commands that pass every active
      condition, favourites first and then by name; with a category filter
      active, every row carries that category. */
  lemma CommandRowsSpec(cmds: seq<Command>, cats: seq<Category>, f: ListFilter)
    ensures |CommandRows(cmds, cats, f)| <= |cmds|
    ensures forall j | 0 <= j < |cmds| ::
      JoinRow(cats, cmds[j]) in CommandRows(cmds, cats, f) <==> Passes(f, JoinRow(cats, cmds[j]))
    ensures forall i | 0 <= i < |CommandRows(cmds, cats, f)| ::
      var x := CommandRows(cmds, cats, f)[i];
      && (f.favoriteOnly ==> x.isFavorite == 1)
      && (CategoryFilterActive(f) ==> x.categoryName == Some(f.category))
      && exists j | 0 <= j < |cmds| :: x == JoinRow(cats, cmds[j])
    ensures var r := CommandRows(cmds, cats, f);
      forall i, j | 0 <= i < j < |r| ::
        r[i].isFavorite > r[j].isFavorite || (r[i].isFavorite == r[j].isFavorite && TextLe(r[i].name, r[j].name))
    ensures forall x :: multiset(CommandRows(cmds, cats, f))[x] == if Passes(f, x) then multiset(Joined(cmds, cats))[x] else 0
  {
    var s := Selected(cmds, cats, f);
    var r := CommandRows(cmds, cats, f);
    SortPermutes(s, RowKey);
    SelectedCounts(cmds, cats, f);
    forall j | 0 <= j < |cmds| ensures JoinRow(cats, cmds[j]) in r <==> Passes(f, JoinRow(cats, cmds[j])) {
      var x := JoinRow(cats, cmds[j]);
      SortSameRows(s, RowKey, x);
      if x in s {
        var k :| 0 <= k < |s| && s[k] == x;
      }
    }
    forall i | 0 <= i < |r| ensures Passes(f, r[i]) && exists j | 0 <= j < |cmds| :: r[i] == JoinRow(cats, cmds[j]) {
      SortSameRows(s, RowKey, r[i]);
      var k :| 0 <= k < |s| && s[k] == r[i];
    }
    SortSorted(s, RowKey);
    forall i, j | 0 <= i < j < |r| ensures KeyLe(RowKey(r[i]), RowKey(r[j])) { }
  }

  /** With a category filter active, a command appears exactly when its
      `category_id` is the id of the category with that name: a command with
      no category, or with an id no category has, never appears. */
  lemma CategoryFilterMeansReference(cats: seq<Category>, c: Command, next: nat, k: nat)
    requires Keyed(cats, CategoryId, next) && NamesUnique(cats)
    requires k < |cats|
    ensures JoinRow(cats, c).categoryName == Some(cats[k].name) <==> c.categoryId == Some(cats[k].id)
  {
    match c.categoryId
    case None =>
    case Some(id) =>
      match FirstWhere(cats, CategoryId, id)
      case None =>
      case Some(m) =>
        if m != k {
          if m < k { assert cats[m].id < cats[k].id; } else { assert cats[k].id < cats[m].id; }
          if m < k { assert cats[m].name != cats[k].name; } else { assert cats[k].name != cats[m].name; }
        }
  }

  // ---------------------------------------------------------------------------
  // quick_search

  /** `c.name LIKE ? OR c.command LIKE ? OR c.description LIKE ?`. */
  predicate Hit(r: CommandRow, term: string)
  {
    Like(r.name, term) || Like(r.text, term) || Like(r.description, term)
  }

  function SearchHits(cmds: seq<Command>, cats: seq<Category>, term: string): (r: seq<CommandRow>)
    ensures |r| <= |cmds|
    ensures forall i | 0 <= i < |r| :: Hit(r[i], term) && exists j | 0 <= j < |cmds| :: r[i] == JoinRow(cats, cmds[j])
    ensures forall j | 0 <= j < |cmds| && Hit(JoinRow(cats, cmds[j]), term) :: JoinRow(cats, cmds[j]) in r
  {
    if cmds == [] then []
    else
      var x := JoinRow(cats, cmds[0]);
      var rest := SearchHits(cmds[1..], cats, term);
      assert forall j | 0 <= j < |cmds[1..]| :: cmds[1..][j] == cmds[j + 1];
      (if Hit(x, term) then [x] else []) + rest
  }

  /** Each joined row that matches is found exactly as often as the join
      produces it, and no other row is found. */
  lemma {:induction false} HitCounts(cmds: seq<Command>, cats: seq<Category>, term: string)
    ensures forall x :: multiset(SearchHits(cmds, cats, term))[x] == if Hit(x, term) then multiset(Joined(cmds, cats))[x] else 0
  {
    if cmds != [] {
      HitCounts(cmds[1..], cats, term);
      JoinedCons(cmds, cats);
    }
  }

  /** The rows the search query fetches for a non-empty term. */
  function SearchRows(cmds: seq<Command>, cats: seq<Category>, term: string): seq<CommandRow>
  {
    Sort(SearchHits(cmds, cats, term), RowKey)
  }

  /** The search holds exactly the commands whose name, text or description
      matches the term, whatever the list filters say, in the list's order. */
  lemma SearchRowsSpec(cmds: seq<Command>, cats: seq<Category>, term: string)
    ensures |SearchRows(cmds, cats, term)| <= |cmds|
    ensures forall j | 0 <= j < |cmds| ::
      JoinRow(cats, cmds[j]) in SearchRows(cmds, cats, term) <==> Hit(JoinRow(cats, cmds[j]), term)
    ensures forall i | 0 <= i < |SearchRows(cmds, cats, term)| ::
      exists j | 0 <= j < |cmds| :: SearchRows(cmds, cats, term)[i] == JoinRow(cats, cmds[j])
    ensures var r := SearchRows(cmds, cats, term);
      forall i, j | 0 <= i < j < |r| ::
        r[i].isFavorite > r[j].isFavorite || (r[i].isFavorite == r[j].isFavorite && TextLe(r[i].name, r[j].name))
    ensures forall x :: multiset(SearchRows(cmds, cats, term))[x] == if Hit(x, term) then multiset(Joined(cmds, cats))[x] else 0
  {
    var s := SearchHits(cmds, cats, term);
    var r := SearchRows(cmds, cats, term);
    SortPermutes(s, RowKey);
    HitCounts(cmds, cats, term);
    forall j | 0 <= j < |cmds| ensures JoinRow(cats, cmds[j]) in r <==> Hit(JoinRow(cats, cmds[j]), term) {
      var x := JoinRow(cats, cmds[j]);
      SortSameRows(s, RowKey, x);
      if x in s {
        var k :| 0 <= k < |s| && s[k] == x;
      }
    }
    forall i | 0 <= i < |r| ensures exists j | 0 <= j < |cmds| :: r[i] == JoinRow(cats, cmds[j]) {
      SortSameRows(s, RowKey, r[i]);
      var k :| 0 <= k < |s| && s[k] == r[i];
    }
    SortSorted(s, RowKey);
    forall i, j | 0 <= i < j < |r| ensures KeyLe(RowKey(r[i]), RowKey(r[j])) { }
  }

  /** A command whose name, text or description contains the term verbatim is
      always found; a command whose three columns are all empty never is. */
  lemma SearchFindsOccurrences(cmds: seq<Command>, cats: seq<Category>, term: string, j: nat)
    requires j < |cmds|
    ensures Contains(cmds[j].name, term) || Contains(cmds[j].text, term) || Contains(cmds[j].description, term)
      ==> JoinRow(cats, cmds[j]) in SearchRows(cmds, cats, term)
    ensures term != [] && cmds[j].name == [] && cmds[j].text == [] && cmds[j].description == []
      ==> JoinRow(cats, cmds[j]) !in SearchRows(cmds, cats, term)
  {
    SearchRowsSpec(cmds, cats, term);
    var c := cmds[j];
    if Contains(c.name, term) { ContainsIsLike(c.name, term); }
    if Contains(c.text, term) { ContainsIsLike(c.text, term); }
    if Contains(c.description, term) { ContainsIsLike(c.description, term); }
    if term != [] { EmptyNeverLike(term); }
  }

  // ---------------------------------------------------------------------------
  // How a command row is shown

  const Uncategorised := "未分类"
  const Yes := "是"
  const No := "否"

  /** One line of the command list: name, formatted text, category, favourite. */
  datatype CommandView = CommandView(name: string, command: string, category: string, favorite: string)

  /** The line quick_search shows when nothing matches. */
  const NoResults := CommandView("无搜索结果", "请尝试其他关键词", "", "")

  /** `row[2] or "未分类"`: a NULL and an empty name both fall back. */
  function CategoryLabel(n: Option<string>): (shown: string)
    ensures shown != []
    ensures n.Some? && n.value != [] ==> shown == n.value
    ensures n.None? || n.value == [] ==> shown == Uncategorised
  {
    match n
    case None => Uncategorised
    case Some(s) => if s == "" then Uncategorised else s
  }

  /** `"是" if row[4] else "否"`: any non-zero flag counts as a favourite. */
  function FavoriteMark(flag: int): (mark: string)
    ensures mark == Yes <==> flag != 0
    ensures mark == No <==> flag == 0
  {
    if flag != 0 then Yes else No
  }

  function View(r: CommandRow): CommandView
  {
    CommandView(r.name, FormatCommand(r.text), CategoryLabel(r.categoryName), FavoriteMark(r.isFavorite))
  }

  function Views(rows: seq<CommandRow>): (vs: seq<CommandView>)
    ensures |vs| == |rows|
  {
    seq(|rows|, i requires 0 <= i < |rows| => View(rows[i]))
  }

  /** A shown line keeps the name, shows the text on one bounded line, always
      has a category label, and marks exactly the non-zero flags. */
  lemma ViewSpec(r: CommandRow)
    ensures var v := View(r);
      && v.name == r.name
      && |v.command| <= MaxWidth && NoLineBreak(v.command)
      && v.category != []
      && (r.categoryName.None? ==> v.category == Uncategorised)
      && (v.favorite == Yes <==> r.isFavorite != 0)
  {
    FormatCommandShape(r.text);
  }

  /** What the command tree shows after a quick search with the raw entry text:
      a blank term shows the normal list, a term without hits the one
      no-results line. */
  function SearchView(cmds: seq<Command>, cats: seq<Category>, f: ListFilter, rawTerm: string): (vs: seq<CommandView>)
    ensures AllSpace(rawTerm) ==> vs == Views(CommandRows(cmds, cats, f))
    ensures !AllSpace(rawTerm) && SearchRows(cmds, cats, Strip(rawTerm)) != [] ==>
      vs == Views(SearchRows(cmds, cats, Strip(rawTerm)))
    ensures !AllSpace(rawTerm) && SearchRows(cmds, cats, Strip(rawTerm)) == [] ==> vs == [NoResults]
    ensures !AllSpace(rawTerm) ==> vs != []
  {
    var term := Strip(rawTerm);
    if term == [] then Views(CommandRows(cmds, cats, f))
    else
      var rows := SearchRows(cmds, cats, term);
      if rows == [] then [NoResults] else Views(rows)
  }

  // ---------------------------------------------------------------------------
  // get_categories, update_category_filter and refresh_category_list

  /** The combobox values: "全部" and then every category name, by name. */
  function FilterChoices(cats: seq<Category>): (choices: seq<string>)
    ensures |choices| == |cats| + 1 && choices[0] == AllCategories
  {
    [AllCategories] + seq(|cats|, i requires 0 <= i < |cats| => CategoryList(cats)[i].name)
  }

  lemma FilterChoicesSpec(cats: seq<Category>)
    ensures var choices := FilterChoices(cats);
      && (forall i | 0 <= i < |cats| :: cats[i].name in choices[1..])
      && (forall i | 1 <= i < |choices| :: exists j | 0 <= j < |cats| :: cats[j].name == choices[i])
      && (forall i, j | 1 <= i < j < |choices| :: TextLe(choices[i], choices[j]))
  {
    var listed := CategoryList(cats);
    var choices := FilterChoices(cats);
    SortSorted(cats, CategoryKey);
    forall i | 0 <= i < |cats| ensures cats[i].name in choices[1..] {
      SortSameRows(cats, CategoryKey, cats[i]);
      var j :| 0 <= j < |listed| && listed[j] == cats[i];
      assert choices[1..][j] == listed[j].name;
    }
    forall i | 1 <= i < |choices| ensures exists j | 0 <= j < |cats| :: cats[j].name == choices[i] {
      SortSameRows(cats, CategoryKey, listed[i - 1]);
      var j :| 0 <= j < |cats| && cats[j] == listed[i - 1];
    }
    forall i, j | 1 <= i < j < |choices| ensures TextLe(choices[i], choices[j]) {
      assert KeyLe(CategoryKey(listed[i - 1]), CategoryKey(listed[j - 1]));
    }
  }

  /** One line of the category list: `name, description, created_at`. */
  datatype CategoryView = CategoryView(name: string, description: string, createdAt: nat)

  function CategoryViews(cats: seq<Category>): (vs: seq<CategoryView>)
    ensures |vs| == |cats|
  {
    var listed := CategoryList(cats);
    seq(|listed|, i requires 0 <= i < |listed| => CategoryView(listed[i].name, listed[i].description, listed[i].createdAt))
  }

  // ---------------------------------------------------------------------------
  // refresh_note_list

  /** One line of the note list: `title, category, created_at`. */
  datatype NoteView = NoteView(title: string, category: string, createdAt: nat)

  /** `created_at DESC`. */
  function NoteKey(n: Note): Key { Key(n.createdAt, "") }

  /** `WHERE category LIKE '%filter%'` when the filter is non-empty. */
  predicate NotePasses(filter: string, n: Note)
  {
    filter == [] || Like(n.category, filter)
  }

  function NotesSelected(notes: seq<Note>, filter: string): (r: seq<Note>)
    ensures |r| <= |notes|
    ensures forall i | 0 <= i < |r| :: r[i] in notes && NotePasses(filter, r[i])
    ensures forall j | 0 <= j < |notes| && NotePasses(filter, notes[j]) :: notes[j] in r
  {
    if notes == [] then []
    else
      var rest := NotesSelected(notes[1..], filter);
      assert forall j | 0 <= j < |notes[1..]| :: notes[1..][j] == notes[j + 1];
      (if NotePasses(filter, notes[0]) then [notes[0]] else []) + rest
  }

  /** Each note that passes is selected exactly as often as it occurs, and
      no other note is selected. */
  lemma {:induction false} NoteCounts(notes: seq<Note>, filter: string)
    ensures forall n :: multiset(NotesSelected(notes, filter))[n] == if NotePasses(filter, n) then multiset(notes)[n] else 0
  {
    if notes != [] {
      NoteCounts(notes[1..], filter);
      assert notes == [notes[0]] + notes[1..];
    }
  }

  /** The notes the list query fetches for the raw filter text, newest first. */
  function NoteRows(notes: seq<Note>, rawFilter: string): seq<Note>
  {
    Sort(NotesSelected(notes, Strip(rawFilter)), NoteKey)
  }

  /** The note list holds exactly the notes whose category contains the
      stripped filter (all notes for a blank filter, and never a note with an
      empty category for a non-blank one), newest first. */
  lemma NoteRowsSpec(notes: seq<Note>, rawFilter: string)
    ensures var r := NoteRows(notes, rawFilter);
      && |r| <= |notes|
      && (forall j | 0 <= j < |notes| :: notes[j] in r <==> NotePasses(Strip(rawFilter), notes[j]))
      && (forall i | 0 <= i < |r| :: r[i] in notes)
      && (AllSpace(rawFilter) ==> forall j | 0 <= j < |notes| :: notes[j] in r)
      && (!AllSpace(rawFilter) ==> forall i | 0 <= i < |r| :: r[i].category != [])
      && (forall i, j | 0 <= i < j < |r| :: r[i].createdAt >= r[j].createdAt)
    ensures forall n :: multiset(NoteRows(notes, rawFilter))[n] == if NotePasses(Strip(rawFilter), n) then multiset(notes)[n] else 0
  {
    var filter := Strip(rawFilter);
    var s := NotesSelected(notes, filter);
    var r := NoteRows(notes, rawFilter);
    NoteRowsCount(notes, rawFilter);
    SortSorted(s, NoteKey);
    forall j | 0 <= j < |notes| ensures notes[j] in r <==> notes[j] in s {
      SortSameRows(s, NoteKey, notes[j]);
    }
    forall i | 0 <= i < |r| ensures r[i] in notes && NotePasses(filter, r[i]) {
      SortSameRows(s, NoteKey, r[i]);
      var k :| 0 <= k < |s| && s[k] == r[i];
    }
    if filter != [] { EmptyNeverLike(filter); }
    forall i, j | 0 <= i < j < |r| ensures r[i].createdAt >= r[j].createdAt {
      assert KeyLe(NoteKey(r[i]), NoteKey(r[j]));
    }
  }

  lemma NoteRowsCount(notes: seq<Note>, rawFilter: string)
    ensures forall n :: multiset(NoteRows(notes, rawFilter))[n] == if NotePasses(Strip(rawFilter), n) then multiset(notes)[n] else 0
  {
    SortPermutes(NotesSelected(notes, Strip(rawFilter)), NoteKey);
    NoteCounts(notes, Strip(rawFilter));
  }

  function NoteViews(rows: seq<Note>): (vs: seq<NoteView>)
    ensures |vs| == |rows|
  {
    seq(|rows|, i requires 0 <= i < |rows| => NoteView(rows[i].title, rows[i].category, rows[i].createdAt))
  }
}
