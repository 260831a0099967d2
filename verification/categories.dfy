/** The Outlook category list kept in the user's preferences under the
    `inbox_assistant` namespace, its defaults, the urgency-to-flag table,
    and the add / remove / edit operations. Names are compared ignoring
    (ASCII) case. */
module Categories {
  import opened Wrappers
  import opened Text

  datatype Category = Category(
    name: string,
    color: string,
    preset: string,
    flagUrgency: Option<string>,
    description: string)

  /** The `inbox_assistant` namespace; only its category list is modelled. */
  datatype Namespace = Namespace(categories: Option<seq<Category>>)

  /** User preferences; `namespace` is None when the key is absent
      (including when the preferences are empty). */
  datatype Prefs = Prefs(namespace: Option<Namespace>)

  /** The five default categories, in order. */
  function DefaultCategories(): (r: seq<Category>)
    ensures |r| == 5
  {
    seq(5, i requires 0 <= i < 5 => DefaultCategory(i))
  }

  function DefaultCategory(i: nat): Category
    requires i < 5
  {
    match i
    case 0 => Category("Action Required", "red", "preset0", Some("today"), "Needs your response, decision, or action")
    case 1 => Category("Follow Up", "orange", "preset1", Some("this_week"), "Track this, circle back later")
    case 2 => Category("Work", "blue", "preset7", None, "Work-related, read when available")
    case 3 => Category("FYI", "gray", "preset14", None, "Newsletters, notifications, updates - no action needed")
    case _ => Category("Personal", "green", "preset4", None, "Non-work personal correspondence")
  }

  /** Colour names and their Outlook presets. */
  const ColorPresets: seq<(string, string)> := [
    ("red", "preset0"), ("orange", "preset1"), ("brown", "preset2"), ("yellow", "preset3"),
    ("green", "preset4"), ("teal", "preset5"), ("olive", "preset6"), ("blue", "preset7"),
    ("purple", "preset8"), ("cranberry", "preset9"), ("steel", "preset10"),
    ("darksteel", "preset11"), ("gray", "preset12"), ("darkgray", "preset13"), ("black", "preset14")]

  const FallbackPreset: string := "preset7"

  /** The preset for a colour name, or preset7 for an unknown one. */
  function Lookup(table: seq<(string, string)>, key: string, fallback: string): (r: string)
    ensures (exists i :: 0 <= i < |table| && table[i].0 == key) ==>
      exists i :: 0 <= i < |table| && table[i].0 == key && r == table[i].1
    ensures (forall i :: 0 <= i < |table| ==> table[i].0 != key) ==> r == fallback
  {
    if |table| == 0 then fallback
    else if table[0].0 == key then table[0].1
    else Lookup(table[1..], key, fallback)
  }

  function PresetFor(color: string): string {
    Lookup(ColorPresets, Lower(color), FallbackPreset)
  }

  // -------------------------------------------------------------- flags

  /** What `get_flag_settings` returns: a flag status and due value, each
      absent when the urgency sets no flag. */
  datatype FlagSettings = FlagSettings(status: Option<string>, due: Option<string>)

  /** The urgency-to-flag table; unknown urgencies, like "someday", set no flag. */
  function GetFlagSettings(urgency: string): (r: FlagSettings)
    ensures urgency == "immediate" || urgency == "today" ==> r == FlagSettings(Some("flagged"), Some("today"))
    ensures urgency == "this_week" ==> r == FlagSettings(Some("flagged"), Some("this-week"))
    ensures urgency != "immediate" && urgency != "today" && urgency != "this_week" ==> r == FlagSettings(None, None)
  {
    if urgency == "immediate" || urgency == "today" then FlagSettings(Some("flagged"), Some("today"))
    else if urgency == "this_week" then FlagSettings(Some("flagged"), Some("this-week"))
    else FlagSettings(None, None)
  }

  /** A flag is set exactly for the three urgent levels, and then both its
      status and its due value are present. */
  lemma FlagIffUrgent(urgency: string)
    ensures GetFlagSettings(urgency).status.Some? <==>
      urgency in ["immediate", "today", "this_week"]
    ensures GetFlagSettings(urgency).status.Some? <==> GetFlagSettings(urgency).due.Some?
  {
  }

  // ------------------------------------------------------------- lookup

  /** The stored list, or the defaults when there is none. */
  function GetCategories(prefs: Prefs): (r: seq<Category>)
    ensures prefs.namespace.None? ==> r == DefaultCategories()
    ensures prefs.namespace.Some? && prefs.namespace.value.categories.None? ==> r == DefaultCategories()
    ensures prefs.namespace.Some? && prefs.namespace.value.categories.Some? ==>
      r == prefs.namespace.value.categories.value
  {
    if prefs.namespace.Some? && prefs.namespace.value.categories.Some? then
      prefs.namespace.value.categories.value
    else DefaultCategories()
  }

  predicate SameName(a: string, b: string) {
    Lower(a) == Lower(b)
  }

  /** Index of the first category named `name` ignoring case, or -1. */
  function FindCategory(cats: seq<Category>, name: string): (i: int)
    ensures -1 <= i < |cats|
    ensures i >= 0 ==> SameName(cats[i].name, name)
    ensures forall j :: 0 <= j < |cats| && (i < 0 || j < i) ==> !SameName(cats[j].name, name)
  {
    if |cats| == 0 then -1
    else if SameName(cats[0].name, name) then 0
    else
      var k := FindCategory(cats[1..], name);
      if k < 0 then -1 else k + 1
  }

  /** `get_category_config`: the first category with the name, ignoring case. */
  function GetCategoryConfig(name: string, prefs: Prefs): (r: Option<Category>)
    ensures r.None? <==> forall j :: 0 <= j < |GetCategories(prefs)| ==> !SameName(GetCategories(prefs)[j].name, name)
    ensures r.Some? ==> r.value in GetCategories(prefs) && SameName(r.value.name, name)
  {
    var cats := GetCategories(prefs);
    var i := FindCategory(cats, name);
    if i < 0 then None else Some(cats[i])
  }

  /** No two categories share a name ignoring case. */
  predicate UniqueNames(cats: seq<Category>) {
    forall i, j :: 0 <= i < |cats| && 0 <= j < |cats| && i != j ==> !SameName(cats[i].name, cats[j].name)
  }

  // ------------------------------------------------------- initialising

  /** `ensure_categories_initialized`: stores a copy of the defaults when the
      namespace has no list yet; the flag says whether it did. */
  function EnsureInitialized(prefs: Prefs): (r: (seq<Category>, bool, Prefs))
    ensures r.1 <==> prefs.namespace.None? || prefs.namespace.value.categories.None?
    ensures r.1 ==> r.0 == DefaultCategories()
    ensures r.0 == GetCategories(prefs)
    ensures r.2.namespace.Some? && r.2.namespace.value.categories == Some(r.0)
  {
    if prefs.namespace.Some? && prefs.namespace.value.categories.Some? then
      (prefs.namespace.value.categories.value, false, prefs)
    else
      var cats := DefaultCategories();
      (cats, true, Prefs(Some(Namespace(Some(cats)))))
  }

  /** A second initialisation finds the list the first one stored and
      changes nothing. */
  lemma EnsureInitializedIdempotent(prefs: Prefs)
    ensures var first := EnsureInitialized(prefs);
      EnsureInitialized(first.2) == (first.0, false, first.2)
  {
  }

  function WithCategories(cats: seq<Category>): Prefs {
    Prefs(Some(Namespace(Some(cats))))
  }

  // --------------------------------------------------------------- edits

  /** `add_category`: fails on a name clash ignoring case; otherwise appends
      the new category with its colour lowercased and the colour's preset. */
  function AddCategory(prefs: Prefs, name: string, color: string, description: string,
                       flagUrgency: Option<string>): (r: Result<(Category, Prefs)>)
    ensures var cats := GetCategories(prefs);
      r.Failure? <==> exists j :: 0 <= j < |cats| && SameName(cats[j].name, name)
    ensures r.Success? ==>
      var c := r.value.0;
      c == Category(name, Lower(color), PresetFor(color), flagUrgency, description)
      && GetCategories(r.value.1) == GetCategories(prefs) + [c]
  {
    var (cats, _, _) := EnsureInitialized(prefs);
    if FindCategory(cats, name) >= 0 then Failure("Category '" + name + "' already exists")
    else
      var c := Category(name, Lower(color), Lookup(ColorPresets, Lower(color), FallbackPreset), flagUrgency, description);
      Success((c, WithCategories(cats + [c])))
  }

  /** Adding keeps the names unique ignoring case. */
  lemma AddKeepsUnique(prefs: Prefs, name: string, color: string, description: string, flagUrgency: Option<string>)
    requires UniqueNames(GetCategories(prefs))
    ensures var r := AddCategory(prefs, name, color, description, flagUrgency);
      r.Success? ==> UniqueNames(GetCategories(r.value.1))
  {
    var cats := GetCategories(prefs);
    var r := AddCategory(prefs, name, color, description, flagUrgency);
    if r.Success? {
      var after := GetCategories(r.value.1);
      assert after == cats + [r.value.0];
      forall i, j | 0 <= i < |after| && 0 <= j < |after| && i != j
        ensures !SameName(after[i].name, after[j].name)
      {
        if i < |cats| && j < |cats| {
          assert after[i] == cats[i] && after[j] == cats[j];
        } else if i < |cats| {
          assert after[i] == cats[i];
        } else {
          assert after[j] == cats[j];
        }
      }
    }
  }

  /** `remove_category`: removes and returns the first category with the
      name ignoring case; fails when there is none. */
  function RemoveCategory(prefs: Prefs, name: string): (r: Result<(Category, Prefs)>)
    ensures var cats := GetCategories(prefs);
      r.Failure? <==> forall j :: 0 <= j < |cats| ==> !SameName(cats[j].name, name)
    ensures var cats := GetCategories(prefs);
      r.Success? ==>
        exists i :: 0 <= i < |cats| && SameName(cats[i].name, name)
          && (forall j :: 0 <= j < i ==> !SameName(cats[j].name, name))
          && r.value.0 == cats[i]
          && GetCategories(r.value.1) == cats[..i] + cats[i + 1..]
  {
    var (cats, _, _) := EnsureInitialized(prefs);
    var i := FindCategory(cats, name);
    if i < 0 then Failure("Category '" + name + "' not found")
    else Success((cats[i], WithCategories(cats[..i] + cats[i + 1..])))
  }

  /** Removing keeps the names unique, and the removed name is then absent. */
  lemma RemoveKeepsUnique(prefs: Prefs, name: string)
    requires UniqueNames(GetCategories(prefs))
    ensures var r := RemoveCategory(prefs, name);
      r.Success? ==>
        UniqueNames(GetCategories(r.value.1))
        && forall j :: 0 <= j < |GetCategories(r.value.1)| ==> !SameName(GetCategories(r.value.1)[j].name, name)
  {
    var cats := GetCategories(prefs);
    var r := RemoveCategory(prefs, name);
    if r.Success? {
      var i := FindCategory(cats, name);
      var after := GetCategories(r.value.1);
      assert after == cats[..i] + cats[i + 1..];
      assert forall k :: 0 <= k < |after| ==> after[k] == cats[if k < i then k else k + 1];
    }
  }

  /** The fields `edit_category` may change; None leaves a field as it is.
      An empty new name or colour is ignored like a missing one. */
  datatype CategoryEdit = CategoryEdit(
    newName: Option<string>,
    color: Option<string>,
    description: Option<string>,
    flagUrgency: Option<string>)

  /** The edited category: a rename happens only when the new name differs
      from `name` ignoring case; the flag value "none" in any case clears it. */
  function ApplyEdit(c: Category, name: string, e: CategoryEdit): (r: Category)
    ensures e.description.None? ==> r.description == c.description
    ensures e.description.Some? ==> r.description == e.description.value
    ensures (e.color.None? || e.color.value == []) ==> r.color == c.color && r.preset == c.preset
    ensures e.color.Some? && e.color.value != [] ==> r.color == Lower(e.color.value) && r.preset == PresetFor(e.color.value)
    ensures e.flagUrgency.None? ==> r.flagUrgency == c.flagUrgency
    ensures e.flagUrgency.Some? && Lower(e.flagUrgency.value) == "none" ==> r.flagUrgency.None?
    ensures e.flagUrgency.Some? && Lower(e.flagUrgency.value) != "none" ==> r.flagUrgency == e.flagUrgency
    ensures r.name == if Renames(name, e) then e.newName.value else c.name
  {
    var renamed := if e.newName.Some? && e.newName.value != [] && !SameName(e.newName.value, name)
                   then c.(name := e.newName.value) else c;
    var colored := if e.color.Some? && e.color.value != []
                   then renamed.(color := Lower(e.color.value), preset := PresetFor(e.color.value)) else renamed;
    var described := if e.description.Some? then colored.(description := e.description.value) else colored;
    if e.flagUrgency.Some? then
      described.(flagUrgency := if Lower(e.flagUrgency.value) == "none" then None else e.flagUrgency)
    else described
  }

  predicate Renames(name: string, e: CategoryEdit) {
    e.newName.Some? && e.newName.value != [] && !SameName(e.newName.value, name)
  }

  /** `edit_category`: fails when no category has the name, or when a rename
      would clash with an existing name; otherwise only the first matching
      category changes, in place. */
  function EditCategory(prefs: Prefs, name: string, e: CategoryEdit): (r: Result<(Category, Prefs)>)
    ensures var cats := GetCategories(prefs);
      r.Failure? <==>
        (forall j :: 0 <= j < |cats| ==> !SameName(cats[j].name, name))
        || (Renames(name, e) && exists j :: 0 <= j < |cats| && SameName(cats[j].name, e.newName.value))
    ensures var cats := GetCategories(prefs);
      r.Success? ==>
        exists i :: 0 <= i < |cats| && SameName(cats[i].name, name)
          && (forall j :: 0 <= j < i ==> !SameName(cats[j].name, name))
          && r.value.0 == ApplyEdit(cats[i], name, e)
          && GetCategories(r.value.1) == cats[i := r.value.0]
    ensures r.Success? ==> (Renames(name, e) ==> r.value.0.name == e.newName.value)
  {
    var (cats, _, _) := EnsureInitialized(prefs);
    var i := FindCategory(cats, name);
    if i < 0 then Failure("Category '" + name + "' not found")
    else if Renames(name, e) && FindCategory(cats, e.newName.value) >= 0 then
      Failure("Category '" + e.newName.value + "' already exists")
    else
      var c := ApplyEdit(cats[i], name, e);
      Success((c, WithCategories(cats[i := c])))
  }

  /** An edit whose name differs only in case from the old one leaves the
      name unchanged. */
  lemma CaseOnlyRenameKeepsName(prefs: Prefs, name: string, e: CategoryEdit)
    requires e.newName.Some? && SameName(e.newName.value, name)
    ensures var r := EditCategory(prefs, name, e);
      r.Success? ==>
        SameName(r.value.0.name, name)
        && r.value.0.name == GetCategories(prefs)[FindCategory(GetCategories(prefs), name)].name
  {
    var cats := GetCategories(prefs);
    var r := EditCategory(prefs, name, e);
    if r.Success? {
      var i := FindCategory(cats, name);
      assert i >= 0 && r.value.0 == ApplyEdit(cats[i], name, e);
      assert !Renames(name, e);
    }
  }

  /** Editing keeps the names unique ignoring case. */
  lemma EditKeepsUnique(prefs: Prefs, name: string, e: CategoryEdit)
    requires UniqueNames(GetCategories(prefs))
    ensures var r := EditCategory(prefs, name, e);
      r.Success? ==> UniqueNames(GetCategories(r.value.1))
  {
    var cats := GetCategories(prefs);
    var r := EditCategory(prefs, name, e);
    if r.Success? {
      var i := FindCategory(cats, name);
      var c := r.value.0;
      var after := GetCategories(r.value.1);
      assert after == cats[i := c];
      if Renames(name, e) {
        assert c.name == e.newName.value;
        assert forall j :: 0 <= j < |cats| ==> !SameName(cats[j].name, c.name);
      } else {
        assert SameName(c.name, cats[i].name);
      }
      forall a, b | 0 <= a < |after| && 0 <= b < |after| && a != b
        ensures !SameName(after[a].name, after[b].name)
      {
        if a != i && b != i {
          assert after[a] == cats[a] && after[b] == cats[b];
        }
      }
    }
  }

  /** The lowercased first two characters of a name. */
  function NameKey(name: string): (string)
    requires |name| >= 2
  {
    [LowerChar(name[0]), LowerChar(name[1])]
  }

  /** Names whose lowercased first two characters differ are distinct
      ignoring case. */
  lemma KeysDistinct(cats: seq<Category>)
    requires forall i :: 0 <= i < |cats| ==> |cats[i].name| >= 2
    requires forall i, j :: 0 <= i < |cats| && 0 <= j < |cats| && i != j ==> NameKey(cats[i].name) != NameKey(cats[j].name)
    ensures UniqueNames(cats)
  {
  }

  /** The default names are unique ignoring case, so a fresh list satisfies
      the invariant the edits keep. */
  lemma DefaultsUnique()
    ensures UniqueNames(DefaultCategories())
  {
    var d := DefaultCategories();
    forall i | 0 <= i < |d|
      ensures |d[i].name| >= 2 && NameKey(d[i].name) == DefaultKeys[i]
    {
      DefaultKey(i);
    }
    KeysDistinct(d);
  }

  /** The name keys of the defaults: "ac", "fo", "wo", "fy", "pe". */
  const DefaultKeys: seq<string> := [['a', 'c'], ['f', 'o'], ['w', 'o'], ['f', 'y'], ['p', 'e']]

  lemma DefaultKey(i: nat)
    requires i < 5
    ensures |DefaultCategory(i).name| >= 2 && NameKey(DefaultCategory(i).name) == DefaultKeys[i]
  {
  }
}
