/**
 Where a profile's candidate settings come from: the preset templates
 (`build_from_preset`), a Cura Profile Extractor JSON document, already parsed
 (`build_from_json`), and the command line's `key=value,...` list (`run_cli`).
 */
module Sources {
  import opened Wrappers
  import opened Dicts
  import opened Values
  import opened Builder
  import Text
  import Validator

  // ----- presets -----

  datatype Preset = Preset(description: string, settings: Dict<string, Value>)

  /** `MATERIAL_PRESETS` */
  const MaterialPresets: Dict<string, Preset> := [
    ("PLA", Preset("Standard PLA - good all-around starter settings", [
      ("material_print_temperature", Int(200)), ("material_bed_temperature", Int(60)), ("speed_print", Int(50)),
      ("retraction_amount", Float(0.8)), ("retraction_speed", Int(45)), ("cool_fan_speed", Int(100))])),
    ("PETG", Preset("PETG - higher temps, slower speeds, less cooling", [
      ("material_print_temperature", Int(240)), ("material_bed_temperature", Int(80)), ("speed_print", Int(40)),
      ("retraction_amount", Float(1.0)), ("retraction_speed", Int(35)), ("cool_fan_speed", Int(50))])),
    ("ABS", Preset("ABS - high temps, minimal cooling, enclosure recommended", [
      ("material_print_temperature", Int(240)), ("material_bed_temperature", Int(100)), ("speed_print", Int(50)),
      ("retraction_amount", Float(0.8)), ("retraction_speed", Int(45)), ("cool_fan_speed", Int(0))])),
    ("TPU", Preset("TPU/Flexible - slow and careful, direct drive recommended", [
      ("material_print_temperature", Int(230)), ("material_bed_temperature", Int(60)), ("speed_print", Int(25)),
      ("retraction_amount", Float(2.0)), ("retraction_speed", Int(25)), ("cool_fan_speed", Int(100))])),
    ("ASA", Preset("ASA - like ABS but better UV resistance", [
      ("material_print_temperature", Int(260)), ("material_bed_temperature", Int(100)), ("speed_print", Int(50)),
      ("retraction_amount", Float(0.8)), ("retraction_speed", Int(45)), ("cool_fan_speed", Int(30))]))
  ]

  /** `QUALITY_PRESETS` */
  const QualityPresets: Dict<string, Preset> := [
    ("draft", Preset("Fast draft - 0.28mm layers, quick prints",
      [("layer_height", Float(0.28)), ("layer_height_0", Float(0.28))])),
    ("normal", Preset("Standard quality - 0.2mm layers, balanced",
      [("layer_height", Float(0.2)), ("layer_height_0", Float(0.2))])),
    ("fine", Preset("Fine quality - 0.12mm layers, detailed prints",
      [("layer_height", Float(0.12)), ("layer_height_0", Float(0.2))])),
    ("ultra", Preset("Ultra fine - 0.08mm layers, maximum detail",
      [("layer_height", Float(0.08)), ("layer_height_0", Float(0.16))]))
  ]

  /** The settings of a preset build: the quality's, then the material's, then the custom overrides. */
  function PresetSettings(quality: Preset, material: Preset, overrides: Dict<string, Value>): Dict<string, Value> {
    Update(Update(Update([], quality.settings), material.settings), overrides)
  }

  /** Custom overrides beat the material preset, which beats the quality preset, key by key. */
  lemma PresetPrecedence(quality: Preset, material: Preset, overrides: Dict<string, Value>, k: string)
    ensures Get(PresetSettings(quality, material, overrides), k) ==
      if Last(overrides, k).Some? then Last(overrides, k)
      else if Last(material.settings, k).Some? then Last(material.settings, k)
      else Last(quality.settings, k)
  {
    var q := Update([], quality.settings);
    var qm := Update(q, material.settings);
    UpdateGet(qm, overrides, k);
    UpdateGet(q, material.settings, k);
    UpdateGet([], quality.settings, k);
  }

  /** `CuraBuilder.build_from_preset`: the material name is looked up upper-cased (first), the quality lower-cased. */
  function BuildFromPreset(b: CuraBuilder, name: string, definition: string, material: string, quality: string,
                           overrides: Dict<string, Value>): (r: Result<Profile, BuildError>)
    ensures Text.Upper(material) !in Keys(MaterialPresets) ==>
      r == Failure(UnknownMaterial(material, Keys(MaterialPresets)))
    ensures Text.Upper(material) in Keys(MaterialPresets) && Text.Lower(quality) !in Keys(QualityPresets) ==>
      r == Failure(UnknownQuality(quality, Keys(QualityPresets)))
    ensures Text.Upper(material) in Keys(MaterialPresets) && Text.Lower(quality) in Keys(QualityPresets) ==>
      r == BuildProfile(b, name, definition, Text.Lower(quality),
                        PresetSettings(Get(QualityPresets, Text.Lower(quality)).value,
                                       Get(MaterialPresets, Text.Upper(material)).value, overrides), [])
  {
    var mu := Text.Upper(material);
    var ql := Text.Lower(quality);
    GetHas(MaterialPresets, mu);
    GetHas(QualityPresets, ql);
    match Get(MaterialPresets, mu)
    case None => Failure(UnknownMaterial(material, Keys(MaterialPresets)))
    case Some(mp) =>
      match Get(QualityPresets, ql)
      case None => Failure(UnknownQuality(quality, Keys(QualityPresets)))
      case Some(qp) => BuildProfile(b, name, definition, ql, PresetSettings(qp, mp, overrides), [])
  }

  /**
   Known preset names ignore letter case: "pla"/"DRAFT" build what "PLA"/"draft"
   build (an unknown name is reported as typed, so only known ones agree).
   */
  lemma PresetNamesIgnoreCase(b: CuraBuilder, name: string, definition: string, material: string, quality: string,
                              overrides: Dict<string, Value>)
    requires Text.Upper(material) in Keys(MaterialPresets) && Text.Lower(quality) in Keys(QualityPresets)
    ensures BuildFromPreset(b, name, definition, Text.Lower(material), Text.Upper(quality), overrides)
      == BuildFromPreset(b, name, definition, material, quality, overrides)
  {
    Text.CaseFolds(material);
    Text.CaseFolds(quality);
  }

  /** PLA at draft quality: the two layer heights of `draft` followed by PLA's six settings. */
  lemma PlaDraft()
    ensures PresetSettings(Get(QualityPresets, "draft").value, Get(MaterialPresets, "PLA").value, []) == [
      ("layer_height", Float(0.28)), ("layer_height_0", Float(0.28)),
      ("material_print_temperature", Int(200)), ("material_bed_temperature", Int(60)), ("speed_print", Int(50)),
      ("retraction_amount", Float(0.8)), ("retraction_speed", Int(45)), ("cool_fan_speed", Int(100))]
  {
    var q := Get(QualityPresets, "draft").value.settings;
    var m := Get(MaterialPresets, "PLA").value.settings;
    assert Update([], q) == q by {
      UpdateFresh([], q);
    }
    UpdateFresh(q, m);
  }

  /** `update` with keys the dict does not have appends them in order. */
  lemma {:induction false} UpdateFresh(d: Dict<string, Value>, e: Dict<string, Value>)
    requires UniqueKeys(e)
    requires forall i, j :: 0 <= i < |d| && 0 <= j < |e| ==> d[i].0 != e[j].0
    ensures Update(d, e) == d + e
    decreases |e|
  {
    if |e| > 0 {
      PutFresh(d, e[0].0, e[0].1);
      TailUnique(e);
      var d' := d + [e[0]];
      forall i, j | 0 <= i < |d'| && 0 <= j < |e[1..]| ensures d'[i].0 != e[1..][j].0 {
        if i == |d| {
          assert e[1..][j] == e[j + 1];
        } else {
          assert e[1..][j] == e[j + 1];
        }
      }
      UpdateFresh(d', e[1..]);
      assert d' + e[1..] == d + e;
    }
  }

  lemma {:induction false} PutFresh(d: Dict<string, Value>, k: string, v: Value)
    requires forall i :: 0 <= i < |d| ==> d[i].0 != k
    ensures Put(d, k, v) == d + [(k, v)]
  {
    if |d| > 0 {
      PutFresh(d[1..], k, v);
      assert d == [d[0]] + d[1..];
    }
  }

  // ----- extraction JSON -----

  /** A `_key_settings` entry: an object gives its `value` unless that is null; anything else is used as it is. */
  function KeyPick(info: Value): Option<Value> {
    if info.Object? then
      var val := Get(info.fields, "value").GetOr(Null);
      if val == Null then None else Some(val)
    else Some(info)
  }

  /** The `_key_settings` loop. */
  function KeySettings(acc: Dict<string, Value>, entries: Dict<string, Value>): Dict<string, Value>
    decreases |entries|
  {
    if |entries| == 0 then acc
    else
      var next := match KeyPick(entries[0].1) case Some(v) => Put(acc, entries[0].0, v) case None => acc;
      KeySettings(next, entries[1..])
  }

  /** Python's `a or b or c`. */
  function FirstTruthy(a: Value, b: Value, c: Value): Value {
    if Truthy(a) then a else if Truthy(b) then b else c
  }

  /** An `effective_settings` entry: the first truthy of `effective_value`, `value`, `default_value`, unless that is null. */
  function EffectivePick(fields: Dict<string, Value>): Option<Value> {
    var v := FirstTruthy(Get(fields, "effective_value").GetOr(Null), Get(fields, "value").GetOr(Null),
                         Get(fields, "default_value").GetOr(Null));
    if v == Null then None else Some(v)
  }

  /** The `effective_settings` loop: fills only keys still absent; None when `info.get` meets a non-object. */
  function FillAbsent(acc: Dict<string, Value>, entries: Dict<string, Value>): Option<Dict<string, Value>>
    decreases |entries|
  {
    if |entries| == 0 then Some(acc)
    else
      var k := entries[0].0;
      if k in Keys(acc) then FillAbsent(acc, entries[1..])
      else if !entries[0].1.Object? then None
      else match EffectivePick(entries[0].1.fields)
        case Some(v) => FillAbsent(Put(acc, k, v), entries[1..])
        case None => FillAbsent(acc, entries[1..])
  }

  /** Python's `needle in container` for a string needle; None is the `TypeError` of a non-container. */
  function PyIn(needle: string, container: Value): Option<bool> {
    match container
    case Object(fields) => Some(needle in Keys(fields))
    case List(items) => Some(Str(needle) in items)
    case Str(s) => Some(Text.Contains(s, needle))
    case _ => None
  }

  /** The first step: `_key_settings`, which must be an object when present. */
  function KeyStep(data: Dict<string, Value>): Result<Dict<string, Value>, BuildError> {
    match Get(data, "_key_settings")
    case None => Success([])
    case Some(v) => if v.Object? then Success(KeySettings([], v.fields)) else Failure(Malformed)
  }

  /** The second step: `machine.effective_settings`, when `machine` contains that name. */
  function EffectiveStep(data: Dict<string, Value>, settings: Dict<string, Value>): Result<Dict<string, Value>, BuildError> {
    match Get(data, "machine")
    case None => Success(settings)
    case Some(mv) =>
      match PyIn("effective_settings", mv)
      case None => Failure(Malformed)
      case Some(found) =>
        if !found then Success(settings)
        else if !mv.Object? then Failure(Malformed)
        else
          var es := Get(mv.fields, "effective_settings").GetOr(Null);
          if !es.Object? then Failure(Malformed)
          else match FillAbsent(settings, es.fields)
            case Some(s) => Success(s)
            case None => Failure(Malformed)
  }

  /** The definition named by `machine.inheritance_chain[0].name`, defaulting to "fdmprinter". */
  function JsonDefinition(data: Dict<string, Value>): Result<string, BuildError> {
    match Get(data, "machine")
    case None => Success("fdmprinter")
    case Some(mv) =>
      if !mv.Object? then Failure(Malformed)
      else
        var chain := Get(mv.fields, "inheritance_chain").GetOr(List([]));
        if !Truthy(chain) then Success("fdmprinter")
        else if !chain.List? then Failure(Malformed)
        else if !chain.items[0].Object? then Failure(Malformed)
        else match Get(chain.items[0].fields, "name").GetOr(Str("fdmprinter"))
          case Str(s) => Success(s)
          case _ => Failure(Malformed)
  }

  function InFilter(filter: seq<string>): (string, Value) -> bool {
    (k: string, v: Value) => k in filter
  }

  /** `_key_settings`, then `effective_settings`: the merged settings before the filter. */
  function JsonMerge(data: Dict<string, Value>): Result<Dict<string, Value>, BuildError> {
    match KeyStep(data)
    case Failure(e) => Failure(e)
    case Success(s1) => EffectiveStep(data, s1)
  }

  /** The filter step: a non-empty filter keeps only its keys. */
  function Selected(s: Dict<string, Value>, filter: seq<string>): Dict<string, Value> {
    if |filter| > 0 then Filter(s, InFilter(filter)) else s
  }

  /** The settings and definition a JSON build uses. */
  datatype JsonProfile = JsonProfile(settings: Dict<string, Value>, definition: string)

  /**
   The pure part of `build_from_json`. An empty `definition` stands for "not
   given" and an empty `filter` for no filter, as the source tests both for truth.
   */
  function FromJson(data: Dict<string, Value>, definition: string, filter: seq<string>): (r: Result<JsonProfile, BuildError>)
    ensures r.Success? ==> |r.value.settings| > 0
    ensures r.Success? && |filter| > 0 ==> forall k :: k in Keys(r.value.settings) ==> k in filter
    ensures r.Success? ==> JsonMerge(data).Success?
    ensures r.Success? ==>
      forall k :: Get(r.value.settings, k) == if |filter| > 0 && k !in filter then None else Get(JsonMerge(data).value, k)
    ensures r == Failure(NoSettings) <==>
      JsonMerge(data).Success? && forall k :: k in Keys(JsonMerge(data).value) ==> |filter| > 0 && k !in filter
    ensures r.Success? && |definition| > 0 ==> r.value.definition == definition
    ensures r.Success? && |definition| == 0 ==> JsonDefinition(data) == Success(r.value.definition)
    ensures r.Failure? ==> r.error == NoSettings || r.error == Malformed
  {
    match JsonMerge(data)
    case Failure(e) => Failure(e)
    case Success(s2) =>
      var s3 := Selected(s2, filter);
      FilterInFilter(s2, filter);
      MergeUnique(data);
      SelectedGet(s2, filter);
      SelectedEmpty(s2, filter);
      if |s3| == 0 then Failure(NoSettings)
      else if |definition| > 0 then Success(JsonProfile(s3, definition))
      else match JsonDefinition(data)
        case Failure(e) => Failure(e)
        case Success(d) => Success(JsonProfile(s3, d))
  }

  /** The merge assigns each key at most once. */
  lemma MergeUnique(data: Dict<string, Value>)
    requires JsonMerge(data).Success?
    ensures UniqueKeys(JsonMerge(data).value)
  {
    match Get(data, "_key_settings")
    case None =>
      FillAbsentUnique([], EffectiveEntries(data));
    case Some(v) =>
      KeySettingsUnique([], v.fields);
      FillAbsentUnique(KeySettings([], v.fields), EffectiveEntries(data));
  }

  lemma {:induction false} KeySettingsUnique(acc: Dict<string, Value>, entries: Dict<string, Value>)
    requires UniqueKeys(acc)
    ensures UniqueKeys(KeySettings(acc, entries))
    decreases |entries|
  {
    if |entries| > 0 {
      match KeyPick(entries[0].1)
      case Some(v) =>
        PutUnique(acc, entries[0].0, v);
        KeySettingsUnique(Put(acc, entries[0].0, v), entries[1..]);
      case None =>
        KeySettingsUnique(acc, entries[1..]);
    }
  }

  lemma {:induction false} FillAbsentUnique(acc: Dict<string, Value>, entries: Dict<string, Value>)
    requires UniqueKeys(acc)
    ensures FillAbsent(acc, entries).Some? ==> UniqueKeys(FillAbsent(acc, entries).value)
    decreases |entries|
  {
    if |entries| > 0 {
      var k := entries[0].0;
      if k in Keys(acc) {
        FillAbsentUnique(acc, entries[1..]);
      } else if entries[0].1.Object? {
        match EffectivePick(entries[0].1.fields)
        case Some(v) =>
          PutUnique(acc, k, v);
          FillAbsentUnique(Put(acc, k, v), entries[1..]);
        case None =>
          FillAbsentUnique(acc, entries[1..]);
      }
    }
  }

  /** With a filter, a key survives exactly when the filter names it; without one, every key does. */
  lemma SelectedGet(s: Dict<string, Value>, filter: seq<string>)
    requires UniqueKeys(s)
    ensures forall k :: Get(Selected(s, filter), k) == if |filter| > 0 && k !in filter then None else Get(s, k)
  {
    forall k ensures Get(Selected(s, filter), k) == if |filter| > 0 && k !in filter then None else Get(s, k) {
      if |filter| > 0 {
        FilterGet(s, InFilter(filter), k);
      }
    }
  }

  /** Nothing is selected exactly when the filter names none of the keys (or there are none). */
  lemma {:induction false} SelectedEmpty(s: Dict<string, Value>, filter: seq<string>)
    ensures |Selected(s, filter)| == 0 <==> forall k :: k in Keys(s) ==> |filter| > 0 && k !in filter
    decreases |s|
  {
    if |s| > 0 {
      assert s[0].0 in Keys(s);
      if |filter| > 0 {
        SelectedEmpty(s[1..], filter);
        assert Keys(s) == [s[0].0] + Keys(s[1..]);
      }
    }
  }

  /** The `_key_settings` object's entries ([] when absent or not an object). */
  function KeyEntries(data: Dict<string, Value>): Dict<string, Value> {
    var v := Get(data, "_key_settings").GetOr(Null);
    if v.Object? then v.fields else []
  }

  /** The machine's `effective_settings` object's entries ([] when absent or not an object). */
  function EffectiveEntries(data: Dict<string, Value>): Dict<string, Value> {
    var mv := Get(data, "machine").GetOr(Null);
    var es := if mv.Object? then Get(mv.fields, "effective_settings").GetOr(Null) else Null;
    if es.Object? then es.fields else []
  }

  /**
   The merged value of a key, per key: what its `_key_settings` entry picks, if
   anything; otherwise what its `effective_settings` entry picks, if anything.
   */
  lemma JsonMergeGet(data: Dict<string, Value>, k: string)
    requires JsonMerge(data).Success?
    requires UniqueKeys(KeyEntries(data)) && UniqueKeys(EffectiveEntries(data))
    ensures Get(JsonMerge(data).value, k) ==
      var ke := Get(KeyEntries(data), k);
      if ke.Some? && KeyPick(ke.value).Some? then KeyPick(ke.value)
      else match Get(EffectiveEntries(data), k)
        case None => None
        case Some(info) => if info.Object? then EffectivePick(info.fields) else None
  {
    var s1 := KeyStep(data).value;
    KeySettingsGet([], KeyEntries(data), k);
    assert Get(s1, k) == (var ke := Get(KeyEntries(data), k);
      if ke.Some? && KeyPick(ke.value).Some? then KeyPick(ke.value) else None);
    var mv := Get(data, "machine").GetOr(Null);
    if mv.Object? {
      GetHas(mv.fields, "effective_settings");
    }
    if mv.Object? && Get(mv.fields, "effective_settings").GetOr(Null).Object? {
      FillAbsentGet(s1, EffectiveEntries(data), k);
    }
  }

  lemma FilterInFilter(s: Dict<string, Value>, filter: seq<string>)
    ensures forall k :: k in Keys(Filter(s, InFilter(filter))) ==> k in filter
  {
    FilterKeeps(s, InFilter(filter));
  }

  /** `CuraBuilder.build_from_json`, from the parsed document on. */
  function BuildFromJson(b: CuraBuilder, data: Dict<string, Value>, name: string, definition: string, quality: string,
                         filter: seq<string>): (r: Result<Profile, BuildError>)
    ensures FromJson(data, definition, filter).Failure? ==> r == Failure(FromJson(data, definition, filter).error)
    ensures FromJson(data, definition, filter).Success? ==>
      r == BuildProfile(b, name, FromJson(data, definition, filter).value.definition, quality,
                        FromJson(data, definition, filter).value.settings, [])
    ensures r.Success? <==>
      && FromJson(data, definition, filter).Success?
      && (|b.definitions| == 0 || ValidateDefinition(b, FromJson(data, definition, filter).value.definition))
      && Validator.ValidateSettings(b.metadata, FromJson(data, definition, filter).value.settings).allValid
  {
    match FromJson(data, definition, filter)
    case Failure(e) => Failure(e)
    case Success(jp) =>
      BuildGates(b, name, jp.definition, quality, jp.settings, []);
      BuildProfile(b, name, jp.definition, quality, jp.settings, [])
  }

  /**
   `_key_settings` with unique keys: a key gets the value its entry picks, and
   keeps what it had when the entry picks nothing.
   */
  lemma {:induction false} KeySettingsGet(acc: Dict<string, Value>, entries: Dict<string, Value>, k: string)
    requires UniqueKeys(entries)
    ensures Get(KeySettings(acc, entries), k) ==
      if Get(entries, k).Some? && KeyPick(Get(entries, k).value).Some? then KeyPick(Get(entries, k).value) else Get(acc, k)
    decreases |entries|
  {
    if |entries| > 0 {
      var q := entries[0].0;
      var next := match KeyPick(entries[0].1) case Some(v) => Put(acc, q, v) case None => acc;
      TailUnique(entries);
      HeadNotInTail(entries);
      GetHas(entries[1..], k);
      KeySettingsGet(next, entries[1..], k);
      if KeyPick(entries[0].1).Some? {
        PutGet(acc, q, KeyPick(entries[0].1).value, k);
      }
    }
  }

  /**
   `effective_settings` with unique keys, when no exception escapes: a key that
   already has a value keeps it (so `_key_settings` wins); any other key gets
   what its entry picks, if anything.
   */
  lemma {:induction false} FillAbsentGet(acc: Dict<string, Value>, entries: Dict<string, Value>, k: string)
    requires UniqueKeys(entries)
    requires FillAbsent(acc, entries).Some?
    ensures Get(FillAbsent(acc, entries).value, k) ==
      if Get(acc, k).Some? then Get(acc, k)
      else match Get(entries, k)
        case None => None
        case Some(info) => if info.Object? then EffectivePick(info.fields) else None
    decreases |entries|
  {
    GetHas(acc, k);
    if |entries| > 0 {
      var q := entries[0].0;
      TailUnique(entries);
      HeadNotInTail(entries);
      GetHas(entries[1..], k);
      if q in Keys(acc) {
        FillAbsentGet(acc, entries[1..], k);
        GetHas(acc, q);
      } else {
        match EffectivePick(entries[0].1.fields)
        case Some(v) =>
          FillAbsentGet(Put(acc, q, v), entries[1..], k);
          PutGet(acc, q, v, k);
        case None =>
          FillAbsentGet(acc, entries[1..], k);
      }
    }
  }

  /**
   The pick of an `effective_settings` entry: the first truthy of the three
   fields, so 0, False and "" fall through; when none is truthy the
   `default_value` is used as it is unless it is null.
   */
  lemma EffectivePickSpec(fields: Dict<string, Value>)
    ensures var ev := Get(fields, "effective_value").GetOr(Null);
      var v := Get(fields, "value").GetOr(Null);
      var dv := Get(fields, "default_value").GetOr(Null);
      && (Truthy(ev) ==> EffectivePick(fields) == Some(ev))
      && (!Truthy(ev) && Truthy(v) ==> EffectivePick(fields) == Some(v))
      && (!Truthy(ev) && !Truthy(v) ==> EffectivePick(fields) == if dv == Null then None else Some(dv))
  {
  }

  /** A zero `effective_value` falls through to `value`; a zero `default_value` is still taken. */
  lemma EffectivePickExamples()
    ensures EffectivePick([("effective_value", Int(0)), ("value", Int(5))]) == Some(Int(5))
    ensures EffectivePick([("effective_value", Bool(false)), ("default_value", Int(0))]) == Some(Int(0))
    ensures EffectivePick([("effective_value", Null)]) == None
  {
  }

  /**
   The definition of a JSON build: the one given, else the first inheritance
   chain entry's name, else "fdmprinter" when there is no machine or no chain.
   */
  lemma JsonDefinitionDefaults(data: Dict<string, Value>)
    ensures Get(data, "machine").None? ==> JsonDefinition(data) == Success("fdmprinter")
    ensures Get(data, "machine").Some? && !Get(data, "machine").value.Object? ==> JsonDefinition(data) == Failure(Malformed)
    ensures Get(data, "machine").Some? && Get(data, "machine").value.Object? ==>
      var chain := Get(Get(data, "machine").value.fields, "inheritance_chain");
      && (chain.None? || chain == Some(List([])) || chain == Some(Null) ==> JsonDefinition(data) == Success("fdmprinter"))
      && (chain.Some? && chain.value.List? && |chain.value.items| > 0 && chain.value.items[0].Object? ==>
            var name := Get(chain.value.items[0].fields, "name");
            && (name.None? ==> JsonDefinition(data) == Success("fdmprinter"))
            && (name.Some? && name.value.Str? ==> JsonDefinition(data) == Success(name.value.s)))
  {
  }

  // ----- the manual key=value list -----

  /**
   One value of the manual list: case-insensitive "true"/"false" is a bool; else a
   value with a dot is read with `float()`, any other with `int()`; a value neither
   reads is kept as the string it is. The value is not stripped.
   */
  function ParseScalar(v: string): (r: Value)
    ensures r.Bool? <==> Text.Lower(v) in ["true", "false"]
    ensures r.Bool? ==> r.b == (Text.Lower(v) == "true")
    ensures r.Float? ==> '.' in v && Text.ParseFloat(v) == Some(r.r)
    ensures r.Int? ==> '.' !in v && Text.ParseInt(v) == Some(r.i)
    ensures r.Str? <==>
      (Text.Lower(v) !in ["true", "false"] && if '.' in v then Text.ParseFloat(v).None? else Text.ParseInt(v).None?)
    ensures r.Str? ==> r.s == v
    ensures r.Bool? || r.Float? || r.Int? || r.Str?
  {
    var l := Text.Lower(v);
    if l in ["true", "false"] then Bool(l == "true")
    else if '.' in v then
      match Text.ParseFloat(v)
      case Some(x) => Float(x)
      case None => Str(v)
    else
      match Text.ParseInt(v)
      case Some(i) => Int(i)
      case None => Str(v)
  }

  /** Printing an integer and reading it back from the manual list gives the integer. */
  lemma ScalarIntRoundTrip(i: int)
    ensures ParseScalar(Text.IntToString(i)) == Int(i)
  {
    var s := Text.IntToString(i);
    Text.ParseIntToString(i);
    Text.IntToStringShape(i);
    assert Text.Lower(s)[0] == Text.LowerChar(s[0]);
    assert Text.Lower(s) != "true" && Text.Lower(s) != "false";
  }

  /** One item of the list: `key=value` split at the first `=`, key stripped; an item without `=` gives nothing. */
  function ManualItem(item: string): (r: Option<(string, Value)>)
    ensures r.None? <==> '=' !in item
    ensures r.Some? ==> '=' !in r.value.0
    ensures r.Some? && |r.value.0| > 0 ==> !Text.IsSpace(r.value.0[0]) && !Text.IsSpace(r.value.0[|r.value.0| - 1])
    ensures r.Some? ==>
      exists i :: 0 <= i < |item| && item[i] == '=' && '=' !in item[..i] &&
        r.value == (Text.Strip(item[..i]), ParseScalar(item[i + 1..]))
  {
    match Text.IndexOf(item, '=')
    case None => None
    case Some(i) =>
      var r := Some((Text.Strip(item[..i]), ParseScalar(item[i + 1..])));
      assert item[i] == '=' && '=' !in item[..i] && r.value == (Text.Strip(item[..i]), ParseScalar(item[i + 1..]));
      r
  }

  /** The settings loop of the manual mode: each item assigned in order. */
  function ManualFold(acc: Dict<string, Value>, items: seq<string>): Dict<string, Value>
    decreases |items|
  {
    if |items| == 0 then acc
    else
      var next := match ManualItem(items[0]) case Some(kv) => Put(acc, kv.0, kv.1) case None => acc;
      ManualFold(next, items[1..])
  }

  /**
   An item written from a stripped key without `=` reads back as that key and the
   scalar reading of everything after the first `=`, whatever that text holds.
   */
  lemma ManualItemSplit(k: string, v: string)
    requires '=' !in k
    requires |k| > 0 ==> !Text.IsSpace(k[0]) && !Text.IsSpace(k[|k| - 1])
    ensures ManualItem(k + "=" + v) == Some((k, ParseScalar(v)))
  {
    var item := k + "=" + v;
    var j := Text.IndexOf(item, '=');
    assert item[|k|] == '=';
    assert item[..|k|] == k;
    assert j == Some(|k|) by {
      assert forall p :: 0 <= p < |k| ==> item[p] == k[p];
    }
    assert item[|k| + 1..] == v;
    Text.StripTrimmed(k);
  }

  /** An item written from a stripped key without `=` and an integer reads back as that key and integer. */
  lemma ManualItemRoundTrip(k: string, i: int)
    requires '=' !in k
    requires |k| > 0 ==> !Text.IsSpace(k[0]) && !Text.IsSpace(k[|k| - 1])
    ensures ManualItem(k + "=" + Text.IntToString(i)) == Some((k, Int(i)))
  {
    ManualItemSplit(k, Text.IntToString(i));
    ScalarIntRoundTrip(i);
  }

  /** The manual `key=value,key=value` settings of `run_cli`. */
  function ParseManual(arg: string): Dict<string, Value> {
    ManualFold([], Text.SplitOn(arg, ','))
  }

  /** The reference: the pairs of the items that have an `=`, in order, duplicates included. */
  function ManualPairs(items: seq<string>): Dict<string, Value> {
    if |items| == 0 then []
    else (match ManualItem(items[0]) case Some(kv) => [kv] case None => []) + ManualPairs(items[1..])
  }

  lemma {:induction false} ManualFoldIsUpdate(acc: Dict<string, Value>, items: seq<string>)
    ensures ManualFold(acc, items) == Update(acc, ManualPairs(items))
    decreases |items|
  {
    if |items| > 0 {
      ManualFoldIsUpdate(match ManualItem(items[0]) case Some(kv) => Put(acc, kv.0, kv.1) case None => acc, items[1..]);
      match ManualItem(items[0])
      case Some(kv) =>
        UpdateAppend(acc, [kv], ManualPairs(items[1..]));
        UpdateSingle(acc, kv.0, kv.1);
      case None =>
        assert ManualPairs(items) == ManualPairs(items[1..]);
    }
  }

  /**
   The manual list gives one entry per distinct key, and each key's value is
   the one its last item assigns: later duplicates overwrite earlier ones.
   */
  lemma ParseManualLastWins(arg: string, k: string)
    ensures UniqueKeys(ParseManual(arg))
    ensures Get(ParseManual(arg), k) == Last(ManualPairs(Text.SplitOn(arg, ',')), k)
  {
    var pairs := ManualPairs(Text.SplitOn(arg, ','));
    ManualFoldIsUpdate([], Text.SplitOn(arg, ','));
    UpdateGet([], pairs, k);
    UpdateUnique([], pairs);
  }
}
