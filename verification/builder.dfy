/**
 Building a profile: `CuraBuilder.validate_definition` and the pure part of
 `CuraBuilder.build_curaprofile`: the definition check, validation of the global
 settings, the split into global and per-extruder settings, the merge of the
 explicit extruder settings, the safe file name and the archive's members.
 */
module Builder {
  import opened Wrappers
  import opened Dicts
  import opened Values
  import opened Schema
  import opened Validator
  import opened Serializer
  import Text

  /**
   What a build reads from a `CuraBuilder`: its metadata (unloaded when there is
   none), the detected setting version and the discovered definition names.
   */
  datatype CuraBuilder = CuraBuilder(metadata: Metadata, settingVersion: Option<int>, definitions: seq<string>)

  /** Why a build returns `(False, message, None)` (or, for `Malformed`, raises). */
  datatype BuildError =
    | UnknownDefinition(definition: string, examples: seq<string>)
    | ValidationFailed(errors: seq<Finding>)
    | UnknownMaterial(material: string, available: seq<string>)
    | UnknownQuality(quality: string, available: seq<string>)
    | NoSettings
    | Malformed  // the JSON has a shape `build_from_json` does not expect, so an exception escapes it

  /** One file of the `.curaprofile` archive. */
  datatype Member = Member(name: string, cfg: seq<Section>)

  /** A built profile: the archive's files in writing order and the logged validation warnings. */
  datatype Profile = Profile(members: seq<Member>, warnings: seq<Warning>)

  /** Extruder settings per extruder position. */
  type ExtruderSettings = Dict<int, Dict<string, Value>>

  /** `CuraBuilder.validate_definition` */
  predicate ValidateDefinition(b: CuraBuilder, name: string) {
    name in b.definitions || name == "fdmprinter"
  }

  /** `self.available_definitions[:10]` */
  function Examples(defs: seq<string>): (r: seq<string>)
    ensures |r| <= 10 && r <= defs
    ensures |defs| <= 10 ==> r == defs
    ensures |defs| > 10 ==> r == defs[..10]
  {
    if |defs| <= 10 then defs else defs[..10]
  }

  // ----- the safe file name -----

  /** The characters `[\w\-]` keeps, over ASCII. */
  predicate IsSafe(c: char) {
    'a' <= c <= 'z' || 'A' <= c <= 'Z' || '0' <= c <= '9' || c == '_' || c == '-'
  }

  /** `re.sub(r'[^\w\-]', '_', name)` */
  function Sanitize(s: string): (r: string)
    ensures |r| == |s|
    ensures forall i :: 0 <= i < |r| ==> IsSafe(r[i])
  {
    seq(|s|, i requires 0 <= i < |s| => if IsSafe(s[i]) then s[i] else '_')
  }

  /**
   Sanitising keeps every safe character where it is and puts `_` for each other
   one; a name is left unchanged exactly when it is already safe, so sanitising
   twice is sanitising once.
   */
  lemma SanitizeSpec(s: string)
    ensures forall i :: 0 <= i < |s| ==> Sanitize(s)[i] == (if IsSafe(s[i]) then s[i] else '_')
    ensures Sanitize(s) == s <==> forall i :: 0 <= i < |s| ==> IsSafe(s[i])
    ensures Sanitize(Sanitize(s)) == Sanitize(s)
  {
    if Sanitize(s) == s {
      assert forall i :: 0 <= i < |s| ==> IsSafe(Sanitize(s)[i]);
    }
  }

  // ----- the global / per-extruder split -----

  /** A setting goes to the extruder file only when the metadata is loaded and says it is per extruder. */
  function MovesToExtruder(m: Metadata): (string, Value) -> bool {
    (k: string, v: Value) => m.loaded && IsPerExtruder(m, k)
  }

  function StaysGlobal(m: Metadata): (string, Value) -> bool {
    (k: string, v: Value) => !(m.loaded && IsPerExtruder(m, k))
  }

  /** `global_only` */
  function GlobalPart(m: Metadata, s: Dict<string, Value>): Dict<string, Value> {
    Filter(s, StaysGlobal(m))
  }

  /** `extruder_only` */
  function ExtruderPart(m: Metadata, s: Dict<string, Value>): Dict<string, Value> {
    Filter(s, MovesToExtruder(m))
  }

  lemma {:induction false} SplitSize(m: Metadata, s: Dict<string, Value>)
    ensures |GlobalPart(m, s)| + |ExtruderPart(m, s)| == |s|
  {
    if |s| > 0 {
      SplitSize(m, s[1..]);
    }
  }

  /**
   The split is total and disjoint: every setting lands in exactly one part, with
   its value; the extruder part gets exactly the per-extruder keys of loaded
   metadata, and with unloaded metadata everything stays global.
   */
  lemma Partition(m: Metadata, s: Dict<string, Value>, k: string)
    requires UniqueKeys(s)
    ensures |GlobalPart(m, s)| + |ExtruderPart(m, s)| == |s|
    ensures UniqueKeys(GlobalPart(m, s)) && UniqueKeys(ExtruderPart(m, s))
    ensures Get(ExtruderPart(m, s), k) == if m.loaded && IsPerExtruder(m, k) then Get(s, k) else None
    ensures Get(GlobalPart(m, s), k) == if m.loaded && IsPerExtruder(m, k) then None else Get(s, k)
    ensures k in Keys(s) <==> (k in Keys(GlobalPart(m, s)) || k in Keys(ExtruderPart(m, s)))
    ensures !(k in Keys(GlobalPart(m, s)) && k in Keys(ExtruderPart(m, s)))
    ensures !m.loaded ==> GlobalPart(m, s) == s
  {
    SplitSize(m, s);
    FilterUnique(s, StaysGlobal(m));
    FilterUnique(s, MovesToExtruder(m));
    FilterGet(s, StaysGlobal(m), k);
    FilterGet(s, MovesToExtruder(m), k);
    GetHas(s, k);
    GetHas(GlobalPart(m, s), k);
    GetHas(ExtruderPart(m, s), k);
    if !m.loaded {
      KeepAll(s, StaysGlobal(m));
    }
  }

  lemma {:induction false} KeepAll(s: Dict<string, Value>, keep: (string, Value) -> bool)
    requires forall k, v :: keep(k, v)
    ensures Filter(s, keep) == s
  {
    if |s| > 0 {
      KeepAll(s[1..], keep);
    }
  }

  // ----- the extruder groups -----

  /** `merged_extruder[pos].update(settings)` for each explicit position, in order, creating missing positions empty. */
  function MergeInto(acc: ExtruderSettings, es: ExtruderSettings): ExtruderSettings
    decreases |es|
  {
    if |es| == 0 then acc
    else
      var pos := es[0].0;
      MergeInto(Put(acc, pos, Update(Get(acc, pos).GetOr([]), es[0].1)), es[1..])
  }

  /** `merged_extruder`: position 0 seeded with the extruder part, then the explicit settings merged in. */
  function Merged(x: Dict<string, Value>, es: ExtruderSettings): ExtruderSettings {
    MergeInto([(0, x)], es)
  }

  function NonEmpty(): (int, Dict<string, Value>) -> bool {
    (pos: int, s: Dict<string, Value>) => |s| > 0
  }

  /** The positions that get a file, with their settings: only when there is anything per extruder, and only non-empty ones. */
  function ExtruderGroups(x: Dict<string, Value>, es: ExtruderSettings): ExtruderSettings {
    if |x| > 0 || |es| > 0 then Filter(Merged(x, es), NonEmpty()) else []
  }

  lemma {:induction false} MergeIntoGet(acc: ExtruderSettings, es: ExtruderSettings, p: int)
    requires UniqueKeys(es)
    ensures Get(MergeInto(acc, es), p) ==
      if Get(es, p).Some? then Some(Update(Get(acc, p).GetOr([]), Get(es, p).value)) else Get(acc, p)
    decreases |es|
  {
    GetHas(es, p);
    if |es| > 0 {
      var q := es[0].0;
      var acc' := Put(acc, q, Update(Get(acc, q).GetOr([]), es[0].1));
      TailUnique(es);
      HeadNotInTail(es);
      MergeIntoGet(acc', es[1..], p);
      PutGet(acc, q, Update(Get(acc, q).GetOr([]), es[0].1), p);
      assert Keys(es) == [q] + Keys(es[1..]);
      GetHas(es[1..], p);
    }
  }

  /** Merging assigns the same positions, in the same order, as `update` would. */
  lemma {:induction false} MergeIntoKeys(acc: ExtruderSettings, es: ExtruderSettings)
    ensures Keys(MergeInto(acc, es)) == Keys(Update(acc, es))
    ensures UniqueKeys(acc) ==> UniqueKeys(MergeInto(acc, es))
    decreases |es|
  {
    if |es| > 0 {
      var q := es[0].0;
      var acc' := Put(acc, q, Update(Get(acc, q).GetOr([]), es[0].1));
      MergeIntoKeys(acc', es[1..]);
      MergeIntoKeys(Put(acc, q, es[0].1), es[1..]);
      PutKeys(acc, q, Update(Get(acc, q).GetOr([]), es[0].1));
      PutKeys(acc, q, es[0].1);
      if UniqueKeys(acc) {
        PutUnique(acc, q, Update(Get(acc, q).GetOr([]), es[0].1));
      }
      UpdateKeysOnly(acc', Put(acc, q, es[0].1), es[1..]);
    }
  }

  /** The keys an `update` leaves depend only on the keys it starts from. */
  lemma {:induction false} UpdateKeysOnly<V>(a: Dict<int, V>, b: Dict<int, V>, e: Dict<int, V>)
    requires Keys(a) == Keys(b)
    ensures Keys(Update(a, e)) == Keys(Update(b, e))
    decreases |e|
  {
    if |e| > 0 {
      PutKeys(a, e[0].0, e[0].1);
      PutKeys(b, e[0].0, e[0].1);
      UpdateKeysOnly(Put(a, e[0].0, e[0].1), Put(b, e[0].0, e[0].1), e[1..]);
    }
  }

  /**
   The merged extruder settings: position 0 comes first; a position holds its
   explicit settings merged over (for position 0) the per-extruder part of the
   global settings, so explicit settings win key by key; positions named nowhere
   are absent.
   */
  lemma MergedSpec(x: Dict<string, Value>, es: ExtruderSettings, p: int, k: string)
    requires UniqueKeys(es)
    requires Get(es, p).Some? ==> UniqueKeys(Get(es, p).value)
    ensures |Merged(x, es)| > 0 && Keys(Merged(x, es))[0] == 0 && UniqueKeys(Merged(x, es))
    ensures Get(Merged(x, es), p).Some? <==> p == 0 || p in Keys(es)
    ensures Get(Merged(x, es), p).Some? ==>
      (Get(Get(Merged(x, es), p).value, k) ==
         if Get(es, p).Some? && k in Keys(Get(es, p).value) then Get(Get(es, p).value, k)
         else if p == 0 then Get(x, k)
         else None)
  {
    MergeIntoGet([(0, x)], es, p);
    MergeIntoKeys([(0, x)], es);
    UpdateKeys([(0, x)], es);
    assert Keys([(0, x)]) == [0];
    GetHas(es, p);
    if Get(es, p).Some? {
      var e := Get(es, p).value;
      var base: Dict<string, Value> := if p == 0 then x else [];
      assert Get([(0, x)], p).GetOr([]) == base;
      UpdateGet(base, e, k);
      LastUnique(e, k);
      GetHas(e, k);
    }
  }

  /** Every extruder group that gets a file has at least one setting, and positions are distinct. */
  lemma GroupsNonEmpty(x: Dict<string, Value>, es: ExtruderSettings)
    ensures forall i :: 0 <= i < |ExtruderGroups(x, es)| ==> |ExtruderGroups(x, es)[i].1| > 0
    ensures UniqueKeys(ExtruderGroups(x, es))
  {
    FilterKeeps(Merged(x, es), NonEmpty());
    MergeIntoKeys([(0, x)], es);
    FilterUnique(Merged(x, es), NonEmpty());
  }

  /**
   A position gets a file exactly when there is anything per extruder at all and
   its merged settings are non-empty; the file holds those merged settings.
   */
  lemma GroupsSpec(x: Dict<string, Value>, es: ExtruderSettings, p: int)
    ensures Get(ExtruderGroups(x, es), p) ==
      if (|x| > 0 || |es| > 0) && Get(Merged(x, es), p).Some? && |Get(Merged(x, es), p).value| > 0
      then Get(Merged(x, es), p) else None
  {
    if |x| > 0 || |es| > 0 {
      MergeIntoKeys([(0, x)], es);
      FilterGet(Merged(x, es), NonEmpty(), p);
    }
  }

  // ----- the archive -----

  function GlobalFileName(safe: string): string {
    safe + ".inst.cfg"
  }

  function ExtruderFileName(safe: string, pos: int): string {
    safe + "_extruder_" + Text.IntToString(pos) + ".inst.cfg"
  }

  /** The extruder files, one per group, in the groups' order. */
  function ExtruderMembers(b: CuraBuilder, safe: string, name: string, definition: string, quality: string,
                           groups: ExtruderSettings): (ms: seq<Member>)
    ensures |ms| == |groups|
    ensures forall i :: 0 <= i < |groups| ==> ms[i] == Member(ExtruderFileName(safe, groups[i].0),
      GenerateInstCfg(b.metadata, b.settingVersion, name, definition, quality, groups[i].1, Some(groups[i].0)))
  {
    if |groups| == 0 then []
    else
      var cfg := GenerateInstCfg(b.metadata, b.settingVersion, name, definition, quality, groups[0].1, Some(groups[0].0));
      [Member(ExtruderFileName(safe, groups[0].0), cfg)] + ExtruderMembers(b, safe, name, definition, quality, groups[1..])
  }

  /** `CuraBuilder.build_curaprofile`, up to the point where the archive is written. */
  function BuildProfile(b: CuraBuilder, name: string, definition: string, quality: string,
                        global: Dict<string, Value>, es: ExtruderSettings): (r: Result<Profile, BuildError>)
    ensures r.Failure? ==> r.error.UnknownDefinition? || r.error.ValidationFailed?
    ensures r.Success? ==> |r.value.members| >= 1 && r.value.members[0].name == GlobalFileName(Sanitize(name))
  {
    if |b.definitions| > 0 && !ValidateDefinition(b, definition) then
      Failure(UnknownDefinition(definition, Examples(b.definitions)))
    else
      var report := ValidateSettings(b.metadata, global);
      if !report.allValid then Failure(ValidationFailed(report.errors))
      else
        var safe := Sanitize(name);
        var globalCfg := GenerateInstCfg(b.metadata, b.settingVersion, name, definition, quality,
                                         GlobalPart(b.metadata, global), None);
        var groups := ExtruderGroups(ExtruderPart(b.metadata, global), es);
        Success(Profile([Member(GlobalFileName(safe), globalCfg)]
                          + ExtruderMembers(b, safe, name, definition, quality, groups),
                        report.warnings))
  }

  /**
   The gates of a build: an unknown definition fails first (only when definitions
   were discovered), naming up to ten known ones; then the global settings are
   validated and any error fails the build with the error list. The explicit
   extruder settings are never validated, so they never decide the outcome.
   */
  lemma BuildGates(b: CuraBuilder, name: string, definition: string, quality: string,
                   global: Dict<string, Value>, es: ExtruderSettings)
    ensures var r := BuildProfile(b, name, definition, quality, global, es);
      && (|b.definitions| > 0 && definition !in b.definitions && definition != "fdmprinter" <==>
            r == Failure(UnknownDefinition(definition, Examples(b.definitions))))
      && ((|b.definitions| == 0 || ValidateDefinition(b, definition)) ==>
            (r.Success? <==> ValidateSettings(b.metadata, global).allValid)
            && (r.Failure? ==> r.error == ValidationFailed(ValidateSettings(b.metadata, global).errors)))
      && r.Success? == BuildProfile(b, name, definition, quality, global, []).Success?
  {
  }

  /** With no metadata loaded nothing is validated: any known definition builds. */
  lemma UnloadedAlwaysBuilds(b: CuraBuilder, name: string, definition: string, quality: string,
                             global: Dict<string, Value>, es: ExtruderSettings)
    requires !b.metadata.loaded
    requires |b.definitions| == 0 || ValidateDefinition(b, definition)
    ensures BuildProfile(b, name, definition, quality, global, es).Success?
    ensures BuildProfile(b, name, definition, quality, global, es).value.warnings == [ValidationSkipped]
  {
  }

  /**
   A successful build's archive: first the global file with the settings that stay
   global, then one extruder file per non-empty merged group in position order
   (position 0 first), each with its position in the metadata and a values section.
   */
  lemma BuildArchive(b: CuraBuilder, name: string, definition: string, quality: string,
                     global: Dict<string, Value>, es: ExtruderSettings)
    requires BuildProfile(b, name, definition, quality, global, es).Success?
    ensures var p := BuildProfile(b, name, definition, quality, global, es).value;
      var groups := ExtruderGroups(ExtruderPart(b.metadata, global), es);
      && p.members == [Member(GlobalFileName(Sanitize(name)),
                              GenerateInstCfg(b.metadata, b.settingVersion, name, definition, quality,
                                              GlobalPart(b.metadata, global), None))]
                      + ExtruderMembers(b, Sanitize(name), name, definition, quality, groups)
      && (forall i :: 1 <= i < |p.members| ==> |p.members[i].cfg| == 3)
  {
    var p := BuildProfile(b, name, definition, quality, global, es).value;
    var groups := ExtruderGroups(ExtruderPart(b.metadata, global), es);
    GroupsNonEmpty(ExtruderPart(b.metadata, global), es);
    forall i | 1 <= i < |p.members| ensures |p.members[i].cfg| == 3 {
      assert p.members[i] == ExtruderMembers(b, Sanitize(name), name, definition, quality, groups)[i - 1];
    }
  }

  /** No two files of a successful build's archive share a name. */
  lemma ArchiveNamesDistinct(b: CuraBuilder, name: string, definition: string, quality: string,
                             global: Dict<string, Value>, es: ExtruderSettings)
    requires BuildProfile(b, name, definition, quality, global, es).Success?
    ensures var p := BuildProfile(b, name, definition, quality, global, es).value;
      forall i, j :: 0 <= i < j < |p.members| ==> p.members[i].name != p.members[j].name
  {
    var groups := ExtruderGroups(ExtruderPart(b.metadata, global), es);
    BuildArchive(b, name, definition, quality, global, es);
    GroupsNonEmpty(ExtruderPart(b.metadata, global), es);
    MemberNamesDistinct(b, Sanitize(name), name, definition, quality, groups, GenerateInstCfg(b.metadata,
      b.settingVersion, name, definition, quality, GlobalPart(b.metadata, global), None));
  }

  lemma MemberNamesDistinct(b: CuraBuilder, safe: string, name: string, definition: string, quality: string,
                            groups: ExtruderSettings, globalCfg: seq<Section>)
    requires UniqueKeys(groups)
    ensures var ms := [Member(GlobalFileName(safe), globalCfg)] + ExtruderMembers(b, safe, name, definition, quality, groups);
      forall i, j :: 0 <= i < j < |ms| ==> ms[i].name != ms[j].name
  {
    var xs := ExtruderMembers(b, safe, name, definition, quality, groups);
    var ms := [Member(GlobalFileName(safe), globalCfg)] + xs;
    assert forall k :: 0 < k < |ms| ==> ms[k].name == ExtruderFileName(safe, groups[k - 1].0) by {
      forall k | 0 < k < |ms| ensures ms[k].name == ExtruderFileName(safe, groups[k - 1].0) {
        assert ms[k] == xs[k - 1];
      }
    }
    forall i, j | 0 <= i < j < |ms| ensures ms[i].name != ms[j].name {
      if i == 0 {
        GlobalNotExtruder(safe, groups[j - 1].0);
      } else {
        ExtruderNameInjective(safe, groups[i - 1].0, groups[j - 1].0);
      }
    }
  }

  /** The global file's name never equals an extruder file's name. */
  lemma GlobalNotExtruder(safe: string, pos: int)
    ensures GlobalFileName(safe) != ExtruderFileName(safe, pos)
  {
    assert GlobalFileName(safe)[|safe|] == '.';
    assert ExtruderFileName(safe, pos)[|safe|] == '_';
  }

  /** Different positions give different extruder file names (`str` of an int is injective). */
  lemma ExtruderNameInjective(safe: string, p: int, q: int)
    requires p != q
    ensures ExtruderFileName(safe, p) != ExtruderFileName(safe, q)
  {
    var a := Text.IntToString(p);
    var c := Text.IntToString(q);
    Text.ParseIntToString(p);
    Text.ParseIntToString(q);
    var prefix := safe + "_extruder_";
    if |a| == |c| {
      assert ExtruderFileName(safe, p)[|prefix|..|prefix| + |a|] == a;
      assert ExtruderFileName(safe, q)[|prefix|..|prefix| + |c|] == c;
    } else {
      assert |ExtruderFileName(safe, p)| != |ExtruderFileName(safe, q)|;
    }
  }
}
