/**
 The schema index: the definition tree of `fdmprinter.def.json` flattened into
 one constraint record per setting key, the manufacturer `overrides` merged in,
 and the per-category key index and lookups that `SettingMetadata` offers.
 */
module Schema {
  import opened Wrappers
  import opened Dicts
  import opened Values

  /** One node of a definition tree: its own properties and its `children` mapping (empty when absent). */
  datatype Node = Node(props: Dict<string, Value>, children: Dict<string, Node>)

  /** A constraint record: the whitelisted properties of a setting node plus `_category` (and, after overrides, anything else). */
  type Record = Dict<string, Value>

  /** A parsed definition document: its `settings` tree, its `overrides` block and its file name. */
  datatype Definition = Definition(settings: Dict<string, Node>, overrides: Dict<string, Record>, filename: Option<string>)

  /** The node properties a record keeps, in the order they are copied. */
  const Whitelist: seq<string> := [
    "default_value", "value", "type", "description", "unit",
    "minimum_value", "maximum_value", "minimum_value_warning",
    "maximum_value_warning", "enabled", "settable_per_mesh",
    "settable_per_extruder", "settable_globally", "options", "label"
  ]

  predicate IsCategory(n: Node) {
    Get(n.props, "type") == Some(Str("category"))
  }

  /** A node that becomes a record: it has a `type`, and that type is not `"category"`. */
  predicate IsSetting(n: Node) {
    Get(n.props, "type").Some? && !IsCategory(n)
  }

  /** The properties among `names` that `props` has, in the order of `names`. */
  function CopyProps(props: Dict<string, Value>, names: seq<string>): (r: Record)
    ensures forall p :: Get(r, p) == if p in names then Get(props, p) else None
  {
    if |names| == 0 then []
    else
      var rest := CopyProps(props, names[1..]);
      var head := match Get(props, names[0])
        case Some(v) => [(names[0], v)]
        case None => [];
      assert forall p :: Get(head + rest, p) == if p in names then Get(props, p) else None by {
        forall p ensures Get(head + rest, p) == if p in names then Get(props, p) else None {
          if head != [] {
            assert (head + rest)[0] == head[0] && (head + rest)[1..] == rest;
          } else {
            assert head + rest == rest;
          }
        }
      }
      head + rest
  }

  /** The record of a setting node found under category `category`. */
  function RecordOf(n: Node, category: string): (r: Record)
    ensures Get(r, "_category") == Some(Str(category))
    ensures forall p :: p != "_category" ==> Get(r, p) == if p in Whitelist then Get(n.props, p) else None
  {
    [("_category", Str(category))] + CopyProps(n.props, Whitelist)
  }

  // ----- the recursive walk, with the current category as an accumulator -----

  /** `recurse(node, path, category)`: children first, then the node's own record. */
  function Walk(n: Node, path: string, category: string, acc: Dict<string, Record>): Dict<string, Record>
    decreases n
  {
    var current := if IsCategory(n) then path else category;
    var acc' := WalkChildren(n.children, current, acc);
    if IsSetting(n) then Put(acc', path, RecordOf(n, current)) else acc'
  }

  function WalkChildren(cs: Dict<string, Node>, category: string, acc: Dict<string, Record>): Dict<string, Record>
    decreases cs
  {
    if |cs| == 0 then acc
    else
      var c := cs[0];
      assert c in cs && c.1 < c;
      WalkChildren(cs[1..], category, Walk(c.1, c.0, category, acc))
  }

  /** The top-level loop: each entry of `settings` starts with its own key as the category. */
  function WalkTop(top: Dict<string, Node>, acc: Dict<string, Record>): Dict<string, Record>
    decreases |top|
  {
    if |top| == 0 then acc
    else WalkTop(top[1..], Walk(top[0].1, top[0].0, top[0].0, acc))
  }

  // ----- overrides -----

  /** The record an override leaves: the old record (or `{}`), updated with the override, then `_source`. */
  function Overlay(base: Option<Record>, ov: Record, source: string): Record {
    Put(Update(base.GetOr([]), ov), "_source", Str(source))
  }

  function ApplyOverrides(s: Dict<string, Record>, ovs: Dict<string, Record>, source: string): Dict<string, Record>
    decreases |ovs|
  {
    if |ovs| == 0 then s
    else
      var k := ovs[0].0;
      ApplyOverrides(Put(s, k, Overlay(Get(s, k), ovs[0].1, source)), ovs[1..], source)
  }

  /** `extract_settings_from_def` */
  function Extract(d: Definition): Dict<string, Record> {
    ApplyOverrides(WalkTop(d.settings, []), d.overrides, d.filename.GetOr("unknown"))
  }

  // ----- the category index and the lookups of SettingMetadata -----

  /** The category a record is indexed under; a record without `_category` goes to `"other"`. */
  function CategoryOf(r: Record): Value {
    Get(r, "_category").GetOr(Str("other"))
  }

  /** The category index `load` builds: category -> keys, in the order the settings were extracted. */
  function CategoryIndex(s: Dict<string, Record>): Dict<Value, seq<string>>
    decreases |s|
  {
    if |s| == 0 then []
    else
      var idx := CategoryIndex(s[..|s| - 1]);
      var c := CategoryOf(s[|s| - 1].1);
      Put(idx, c, Get(idx, c).GetOr([]) + [s[|s| - 1].0])
  }

  function InCategory(c: Value): (string, Record) -> bool {
    (k: string, r: Record) => CategoryOf(r) == c
  }

  /** The keys of the records in category `c`, in order: the reference for the index. */
  function KeysIn(s: Dict<string, Record>, c: Value): seq<string> {
    Keys(Filter(s, InCategory(c)))
  }

  datatype Metadata = Metadata(settings: Dict<string, Record>, categories: Dict<Value, seq<string>>, loaded: bool)

  /** The metadata before (or without) a successful load. */
  const Unloaded: Metadata := Metadata([], [], false)

  /**
   `SettingMetadata.load`, given the parsed `fdmprinter` definition, or None when
   the file is missing or does not parse (then nothing changes and `loaded` stays false).
   */
  function Load(d: Option<Definition>): (m: Metadata)
    ensures m.loaded <==> d.Some?
    ensures d.None? ==> m == Unloaded
    ensures d.Some? ==> m.settings == Extract(d.value) && m.categories == CategoryIndex(m.settings)
  {
    match d
    case None => Unloaded
    case Some(def) =>
      var s := Extract(def);
      Metadata(s, CategoryIndex(s), true)
  }

  function GetType(m: Metadata, key: string): Value {
    match Get(m.settings, key)
    case None => Str("unknown")
    case Some(r) => Get(r, "type").GetOr(Str("unknown"))
  }

  function GetDefault(m: Metadata, key: string): Value {
    match Get(m.settings, key)
    case None => Null
    case Some(r) => Get(r, "default_value").GetOr(Null)
  }

  function GetLabel(m: Metadata, key: string): Value {
    match Get(m.settings, key)
    case None => Str(key)
    case Some(r) => Get(r, "label").GetOr(Str(key))
  }

  function GetCategory(m: Metadata, key: string): Value {
    match Get(m.settings, key)
    case None => Str("unknown")
    case Some(r) => Get(r, "_category").GetOr(Str("unknown"))
  }

  /** `is_per_extruder`, as its callers use it: the truthiness of `settable_per_extruder` (default False). */
  predicate IsPerExtruder(m: Metadata, key: string) {
    match Get(m.settings, key)
    case None => false
    case Some(r) => Truthy(Get(r, "settable_per_extruder").GetOr(Bool(false)))
  }

  function SettingsInCategory(m: Metadata, c: Value): seq<string> {
    Get(m.categories, c).GetOr([])
  }

  // ----- the walk, stated without the accumulator -----

  /**
   The (key, record) pairs the walk assigns, in assignment order: the records of
   the node's subtree in post-order (children before their parent).
   */
  function Occurrences(n: Node, path: string, category: string): seq<(string, Record)>
    decreases n
  {
    var current := if IsCategory(n) then path else category;
    ChildOccurrences(n.children, current) + (if IsSetting(n) then [(path, RecordOf(n, current))] else [])
  }

  function ChildOccurrences(cs: Dict<string, Node>, category: string): seq<(string, Record)>
    decreases cs
  {
    if |cs| == 0 then []
    else
      var c := cs[0];
      assert c in cs && c.1 < c;
      Occurrences(c.1, c.0, category) + ChildOccurrences(cs[1..], category)
  }

  function TopOccurrences(top: Dict<string, Node>): seq<(string, Record)>
    decreases |top|
  {
    if |top| == 0 then [] else Occurrences(top[0].1, top[0].0, top[0].0) + TopOccurrences(top[1..])
  }

  /** The accumulator walk assigns exactly the occurrences, in order. */
  lemma {:induction false} WalkIsUpdate(n: Node, path: string, category: string, acc: Dict<string, Record>)
    ensures Walk(n, path, category, acc) == Update(acc, Occurrences(n, path, category))
    decreases n
  {
    var current := if IsCategory(n) then path else category;
    WalkChildrenIsUpdate(n.children, current, acc);
    var occ := ChildOccurrences(n.children, current);
    if IsSetting(n) {
      UpdateAppend(acc, occ, [(path, RecordOf(n, current))]);
      UpdateSingle(Update(acc, occ), path, RecordOf(n, current));
    } else {
      assert occ + [] == occ;
    }
  }

  lemma {:induction false} WalkChildrenIsUpdate(cs: Dict<string, Node>, category: string, acc: Dict<string, Record>)
    ensures WalkChildren(cs, category, acc) == Update(acc, ChildOccurrences(cs, category))
    decreases cs
  {
    if |cs| > 0 {
      var c := cs[0];
      assert c in cs && c.1 < c;
      WalkIsUpdate(c.1, c.0, category, acc);
      WalkChildrenIsUpdate(cs[1..], category, Walk(c.1, c.0, category, acc));
      UpdateAppend(acc, Occurrences(c.1, c.0, category), ChildOccurrences(cs[1..], category));
    }
  }

  lemma {:induction false} WalkTopIsUpdate(top: Dict<string, Node>, acc: Dict<string, Record>)
    ensures WalkTop(top, acc) == Update(acc, TopOccurrences(top))
    decreases |top|
  {
    if |top| > 0 {
      WalkIsUpdate(top[0].1, top[0].0, top[0].0, acc);
      WalkTopIsUpdate(top[1..], Walk(top[0].1, top[0].0, top[0].0, acc));
      UpdateAppend(acc, Occurrences(top[0].1, top[0].0, top[0].0), TopOccurrences(top[1..]));
    }
  }

  // ----- where a node sits in the tree -----

  /**
   Node `m` is found under key `k` in the subtree rooted at `n` (which sits under
   key `path` and inherits `category`), and `c` is the category in force there:
   the key of the nearest enclosing category node, or the inherited one.
   */
  ghost predicate Reached(n: Node, path: string, category: string, k: string, m: Node, c: string)
    decreases n
  {
    var current := if IsCategory(n) then path else category;
    (k == path && m == n && c == current)
    || exists i :: 0 <= i < |n.children| && Reached(n.children[i].1, n.children[i].0, current, k, m, c)
  }

  /** `m` is found under key `k` somewhere in the `settings` tree, in category `c`; top-level keys start as categories. */
  ghost predicate InTree(top: Dict<string, Node>, k: string, m: Node, c: string) {
    exists i :: 0 <= i < |top| && Reached(top[i].1, top[i].0, top[i].0, k, m, c)
  }

  lemma {:induction false} ChildOccurrencesHas(cs: Dict<string, Node>, category: string, i: nat, e: (string, Record))
    requires i < |cs| && e in Occurrences(cs[i].1, cs[i].0, category)
    ensures e in ChildOccurrences(cs, category)
    decreases cs
  {
    if i > 0 {
      assert cs[1..][i - 1] == cs[i];
      ChildOccurrencesHas(cs[1..], category, i - 1, e);
    }
  }

  lemma {:induction false} ChildOccurrencesFrom(cs: Dict<string, Node>, category: string, e: (string, Record))
    requires e in ChildOccurrences(cs, category)
    ensures exists i :: 0 <= i < |cs| && e in Occurrences(cs[i].1, cs[i].0, category)
    decreases cs
  {
    if e !in Occurrences(cs[0].1, cs[0].0, category) {
      ChildOccurrencesFrom(cs[1..], category, e);
      var i :| 0 <= i < |cs[1..]| && e in Occurrences(cs[1..][i].1, cs[1..][i].0, category);
      assert cs[1..][i] == cs[i + 1];
    }
  }

  /** Every setting node of the subtree contributes its record, under its own key and category. */
  lemma {:induction false} ReachedOccurs(n: Node, path: string, category: string, k: string, m: Node, c: string)
    requires Reached(n, path, category, k, m, c) && IsSetting(m)
    ensures (k, RecordOf(m, c)) in Occurrences(n, path, category)
    decreases n
  {
    var current := if IsCategory(n) then path else category;
    if !(k == path && m == n && c == current) {
      var i :| 0 <= i < |n.children| && Reached(n.children[i].1, n.children[i].0, current, k, m, c);
      ReachedOccurs(n.children[i].1, n.children[i].0, current, k, m, c);
      ChildOccurrencesHas(n.children, current, i, (k, RecordOf(m, c)));
    }
  }

  /** Every occurrence is the record of a setting node of the subtree, under its own key and category. */
  lemma {:induction false} OccursReached(n: Node, path: string, category: string, e: (string, Record))
    requires e in Occurrences(n, path, category)
    ensures exists m, c :: IsSetting(m) && Reached(n, path, category, e.0, m, c) && e.1 == RecordOf(m, c)
    decreases n
  {
    var current := if IsCategory(n) then path else category;
    if e in ChildOccurrences(n.children, current) {
      ChildOccurrencesFrom(n.children, current, e);
      var i :| 0 <= i < |n.children| && e in Occurrences(n.children[i].1, n.children[i].0, current);
      OccursReached(n.children[i].1, n.children[i].0, current, e);
      var m, c :| IsSetting(m) && Reached(n.children[i].1, n.children[i].0, current, e.0, m, c) && e.1 == RecordOf(m, c);
      assert Reached(n, path, category, e.0, m, c);
    } else {
      assert IsSetting(n) && e == (path, RecordOf(n, current));
      assert Reached(n, path, category, e.0, n, current);
    }
  }

  lemma {:induction false} TopOccursIff(top: Dict<string, Node>, e: (string, Record))
    ensures e in TopOccurrences(top) <==> exists m, c :: IsSetting(m) && InTree(top, e.0, m, c) && e.1 == RecordOf(m, c)
    decreases |top|
  {
    if |top| > 0 {
      var head := Occurrences(top[0].1, top[0].0, top[0].0);
      TopOccursIff(top[1..], e);
      if e in head {
        OccursReached(top[0].1, top[0].0, top[0].0, e);
        var m, c :| IsSetting(m) && Reached(top[0].1, top[0].0, top[0].0, e.0, m, c) && e.1 == RecordOf(m, c);
        assert InTree(top, e.0, m, c);
      }
      if exists m, c :: IsSetting(m) && InTree(top, e.0, m, c) && e.1 == RecordOf(m, c) {
        var m, c :| IsSetting(m) && InTree(top, e.0, m, c) && e.1 == RecordOf(m, c);
        var i :| 0 <= i < |top| && Reached(top[i].1, top[i].0, top[i].0, e.0, m, c);
        if i == 0 {
          ReachedOccurs(top[0].1, top[0].0, top[0].0, e.0, m, c);
        } else {
          assert top[1..][i - 1] == top[i];
          assert InTree(top[1..], e.0, m, c);
        }
      }
    }
  }

  /**
   The records the tree walk produces: a key has a record exactly when some
   setting node (typed, not a category) sits under that key, and the record is
   that node's whitelisted properties tagged with its nearest enclosing category
   (when several nodes share a key, one of them — the last visited — wins).
   */
  lemma TreeRecords(top: Dict<string, Node>, k: string)
    ensures Get(WalkTop(top, []), k) == Last(TopOccurrences(top), k)
    ensures Get(WalkTop(top, []), k).Some? <==> exists m, c :: IsSetting(m) && InTree(top, k, m, c)
    ensures Get(WalkTop(top, []), k).Some? ==>
      exists m, c :: IsSetting(m) && InTree(top, k, m, c) && Get(WalkTop(top, []), k).value == RecordOf(m, c)
  {
    WalkTopIsUpdate(top, []);
    var occ := TopOccurrences(top);
    UpdateGet([], occ, k);
    LastIn(occ, k);
    if Last(occ, k).Some? {
      TopOccursIff(top, (k, Last(occ, k).value));
    }
    if exists m, c :: IsSetting(m) && InTree(top, k, m, c) {
      var m, c :| IsSetting(m) && InTree(top, k, m, c);
      TopOccursIff(top, (k, RecordOf(m, c)));
      PairInKeys(occ, k, RecordOf(m, c));
    }
  }

  // ----- overrides -----

  /**
   An override's fields win, the other fields of the old record stay, and
   `_source` names the definition file; for a key with no old record the result
   holds exactly the override's fields plus `_source`.
   */
  lemma OverlayFields(base: Option<Record>, ov: Record, source: string, f: string)
    requires UniqueKeys(ov)
    ensures Get(Overlay(base, ov, source), f) ==
      if f == "_source" then Some(Str(source))
      else if Get(ov, f).Some? then Get(ov, f)
      else if base.Some? then Get(base.value, f)
      else None
  {
    PutGet(Update(base.GetOr([]), ov), "_source", Str(source), f);
    UpdateGet(base.GetOr([]), ov, f);
    LastUnique(ov, f);
  }

  /** The override loop touches exactly the overridden keys, each once. */
  lemma {:induction false} ApplyOverridesGet(s: Dict<string, Record>, ovs: Dict<string, Record>, source: string, k: string)
    requires UniqueKeys(ovs)
    ensures Get(ApplyOverrides(s, ovs, source), k) ==
      if Get(ovs, k).Some? then Some(Overlay(Get(s, k), Get(ovs, k).value, source)) else Get(s, k)
    decreases |ovs|
  {
    if |ovs| > 0 {
      var k0 := ovs[0].0;
      var s' := Put(s, k0, Overlay(Get(s, k0), ovs[0].1, source));
      TailUnique(ovs);
      HeadNotInTail(ovs);
      ApplyOverridesGet(s', ovs[1..], source, k);
      PutGet(s, k0, Overlay(Get(s, k0), ovs[0].1, source), k);
      GetHas(ovs[1..], k);
    }
  }

  // ----- the category index -----

  /** Each category lists exactly its records' keys in extraction order; categories without records are absent. */
  lemma {:induction false} CategoryIndexSpec(s: Dict<string, Record>, c: Value)
    ensures Get(CategoryIndex(s), c) == if |KeysIn(s, c)| > 0 then Some(KeysIn(s, c)) else None
    decreases |s|
  {
    if |s| > 0 {
      var init := s[..|s| - 1];
      var last := s[|s| - 1];
      CategoryIndexSpec(init, c);
      var idx := CategoryIndex(init);
      var c' := CategoryOf(last.1);
      PutGet(idx, c', Get(idx, c').GetOr([]) + [last.0], c);
      assert s == init + [last];
      FilterAppend(init, [last], InCategory(c));
      KeysAppend(Filter(init, InCategory(c)), Filter([last], InCategory(c)));
      assert [last][1..] == [];
      if c' == c {
        assert InCategory(c)(last.0, last.1);
        assert Filter([last], InCategory(c)) == [last];
        assert KeysIn(s, c) == KeysIn(init, c) + [last.0];
      } else {
        assert Filter([last], InCategory(c)) == [];
        assert KeysIn(s, c) == KeysIn(init, c);
      }
    }
  }

  /** Lookups of a key the schema does not know fall back to their defaults. */
  lemma UnknownKeyDefaults(m: Metadata, key: string)
    requires key !in Keys(m.settings)
    ensures GetType(m, key) == Str("unknown") && GetCategory(m, key) == Str("unknown")
    ensures GetDefault(m, key) == Null && GetLabel(m, key) == Str(key)
    ensures !IsPerExtruder(m, key)
  {
    GetHas(m.settings, key);
  }

  /**
   After a load, `get_settings_in_category` lists exactly the keys whose nearest
   enclosing category is `c`, in walk order; an unknown category gives [].
   */
  lemma SettingsInCategorySpec(d: Definition, c: Value)
    ensures SettingsInCategory(Load(Some(d)), c) == KeysIn(Extract(d), c)
  {
    CategoryIndexSpec(Extract(d), c);
  }
}
