/**
 The `.inst.cfg` writer: `SettingMetadata.format_value_for_cfg`, which turns one
 setting value into its text, and `CuraBuilder.generate_inst_cfg`, which lays a
 profile out as the sections `general`, `metadata` and (when there are settings)
 `values`. Sections are kept as ordered (key, text) lists, not as file bytes.
 */
module Serializer {
  import opened Wrappers
  import opened Dicts
  import opened Values
  import opened Schema
  import Text

  /** `s.replace(c, r)` for a single character `c`. */
  function Replace(s: string, c: char, r: string): (t: string)
    ensures c !in r ==> c !in t
    ensures forall d :: d !in s && d !in r ==> d !in t
  {
    if |s| == 0 then "" else (if s[0] == c then r else [s[0]]) + Replace(s[1..], c, r)
  }

  /** The escape `format_value_for_cfg` applies to strings: newlines first, then tabs. */
  function Escape(s: string): (t: string)
    ensures '\n' !in t && '\t' !in t
  {
    Replace(Replace(s, '\n', "\\n"), '\t', "\\t")
  }

  /** The escape of one character. */
  function EscapeChar(c: char): string {
    if c == '\n' then "\\n" else if c == '\t' then "\\t" else [c]
  }

  /** The reference: every character escaped on its own, in order. */
  function EscapeEach(s: string): string {
    if |s| == 0 then "" else EscapeChar(s[0]) + EscapeEach(s[1..])
  }

  lemma {:induction false} ReplaceAppend(a: string, b: string, c: char, r: string)
    ensures Replace(a + b, c, r) == Replace(a, c, r) + Replace(b, c, r)
  {
    if |a| > 0 {
      assert (a + b)[0] == a[0] && (a + b)[1..] == a[1..] + b;
      ReplaceAppend(a[1..], b, c, r);
    } else {
      assert a + b == b;
    }
  }

  /**
   The two chained replacements act character by character: the first introduces
   no tab, so nothing it writes is rewritten by the second.
   */
  lemma {:induction false} EscapeIsCharwise(s: string)
    ensures Escape(s) == EscapeEach(s)
  {
    if |s| > 0 {
      EscapeIsCharwise(s[1..]);
      var head := if s[0] == '\n' then "\\n" else [s[0]];
      var rest := Replace(s[1..], '\n', "\\n");
      assert Replace(s, '\n', "\\n") == head + rest;
      ReplaceAppend(head, rest, '\t', "\\t");
      assert Replace(head, '\t', "\\t") == EscapeChar(s[0]) by {
        if s[0] == '\n' {
          assert head == ['\\'] + ['n'];
          ReplaceAppend(['\\'], ['n'], '\t', "\\t");
        } else {
          assert head[1..] == "";
        }
      }
    }
  }

  /** The reading Cura gives an escaped text: `\n` and `\t` back to the control characters. */
  function Unescape(s: string): string {
    if |s| >= 2 && s[0] == '\\' && s[1] == 'n' then "\n" + Unescape(s[2..])
    else if |s| >= 2 && s[0] == '\\' && s[1] == 't' then "\t" + Unescape(s[2..])
    else if |s| == 0 then ""
    else [s[0]] + Unescape(s[1..])
  }

  /** A string without backslashes reads back unchanged after escaping. */
  lemma {:induction false} UnescapeEscape(s: string)
    requires '\\' !in s
    ensures Unescape(Escape(s)) == s
  {
    EscapeIsCharwise(s);
    UnescapeEach(s);
  }

  lemma {:induction false} UnescapeEach(s: string)
    requires '\\' !in s
    ensures Unescape(EscapeEach(s)) == s
  {
    if |s| > 0 {
      UnescapeEach(s[1..]);
      var e := EscapeEach(s);
      assert e == EscapeChar(s[0]) + EscapeEach(s[1..]);
      if s[0] == '\n' || s[0] == '\t' {
        assert e[2..] == EscapeEach(s[1..]);
      } else {
        assert e[1..] == EscapeEach(s[1..]);
      }
    }
  }

  /** Backslashes are not escaped, so a literal backslash-n and a newline are written alike. */
  lemma EscapeNotInjective()
    ensures Escape("\\n") == Escape("\n")
  {
    EscapeIsCharwise("\\n");
    EscapeIsCharwise("\n");
    assert "\\n"[1..] == "n";
  }

  /** `SettingMetadata.format_value_for_cfg` */
  function FormatForCfg(m: Metadata, key: string, v: Value): (r: Rendered)
    ensures GetType(m, key) == Str("bool") ==> r == Exact(if Truthy(v) then "True" else "False")
    ensures (GetType(m, key) == Str("str") || GetType(m, key) == Str("extruder")) && v.Str? ==>
      r.Exact? && '\n' !in r.text && '\t' !in r.text
    ensures GetType(m, key) != Str("bool") && !(v.Str? && (GetType(m, key) == Str("str") || GetType(m, key) == Str("extruder"))) ==>
      r == Show(v)
  {
    var t := GetType(m, key);
    if t == Str("bool") then Exact(if Truthy(v) then "True" else "False")
    else if (t == Str("str") || t == Str("extruder")) && v.Str? then Exact(Escape(v.s))
    else Show(v)
  }

  /** How Cura reads a boolean back: the text "True". */
  predicate ReadBool(text: string) {
    text == "True"
  }

  /** A `bool` setting's written text reads back as the value's truthiness. */
  lemma BoolReadsBack(m: Metadata, key: string, v: Value)
    requires GetType(m, key) == Str("bool")
    ensures FormatForCfg(m, key, v).Exact?
    ensures ReadBool(FormatForCfg(m, key, v).text) <==> Truthy(v)
  {
  }

  /** A `str`/`extruder` string without backslashes reads back unchanged. */
  lemma StrReadsBack(m: Metadata, key: string, s: string)
    requires GetType(m, key) == Str("str") || GetType(m, key) == Str("extruder")
    requires '\\' !in s
    ensures FormatForCfg(m, key, Str(s)).Exact?
    ensures Unescape(FormatForCfg(m, key, Str(s)).text) == s
  {
    UnescapeEscape(s);
  }

  /** An integer setting's text reads back through `int()` as the same integer. */
  lemma IntReadsBack(m: Metadata, key: string, i: int)
    requires GetType(m, key) != Str("bool")
    ensures FormatForCfg(m, key, Int(i)) == Exact(Text.IntToString(i))
    ensures Text.ParseInt(FormatForCfg(m, key, Int(i)).text) == Some(i)
  {
    assert FormatForCfg(m, key, Int(i)) == Exact(Text.IntToString(i));
    Text.ParseIntToString(i);
  }

  // ----- sections -----

  datatype Section = Section(name: string, entries: Dict<string, Rendered>)

  /** `self.setting_version or 23`: a missing or zero version falls back to 23. */
  function SettingVersion(sv: Option<int>): (v: int)
    ensures v != 0
    ensures sv.Some? && sv.value != 0 ==> v == sv.value
    ensures sv.None? || sv.value == 0 ==> v == 23
  {
    match sv
    case Some(x) => if x != 0 then x else 23
    case None => 23
  }

  /** One value's text: formatted by its type when the metadata is loaded, `str(value)` otherwise. */
  function Formatted(m: Metadata, key: string, v: Value): Rendered {
    if m.loaded then FormatForCfg(m, key, v) else Show(v)
  }

  /** The `values` entries, one per setting in the settings' order. */
  function ValueEntries(m: Metadata, settings: Dict<string, Value>): (es: Dict<string, Rendered>)
    ensures |es| == |settings|
    ensures forall i :: 0 <= i < |settings| ==> es[i] == (settings[i].0, Formatted(m, settings[i].0, settings[i].1))
  {
    if |settings| == 0 then [] else [(settings[0].0, Formatted(m, settings[0].0, settings[0].1))] + ValueEntries(m, settings[1..])
  }

  /** The `general` section's entries. */
  function GeneralEntries(name: string, definition: string): Dict<string, Rendered> {
    [("version", Exact("4")), ("name", Exact(name)), ("definition", Exact(definition))]
  }

  /** The `metadata` section's entries; `position` only for an extruder file. */
  function MetadataEntries(quality: string, sv: Option<int>, position: Option<int>): Dict<string, Rendered> {
    [("type", Exact("quality_changes")), ("quality_type", Exact(quality)),
     ("setting_version", Exact(Text.IntToString(SettingVersion(sv))))]
      + if position.Some? then [("position", Exact(Text.IntToString(position.value)))] else []
  }

  /**
   `CuraBuilder.generate_inst_cfg`. An extruder file is one with a `position`,
   which stands for the `is_extruder`/`extruder_position` pair.
   */
  function GenerateInstCfg(m: Metadata, sv: Option<int>, name: string, definition: string, quality: string,
                           settings: Dict<string, Value>, position: Option<int>): (cfg: seq<Section>)
    ensures |cfg| == if |settings| > 0 then 3 else 2
    ensures cfg[0].name == "general" && cfg[1].name == "metadata"
    ensures |settings| > 0 ==> cfg[2].name == "values" && Keys(cfg[2].entries) == Keys(settings)
  {
    [Section("general", GeneralEntries(name, definition)), Section("metadata", MetadataEntries(quality, sv, position))]
      + if |settings| > 0 then [Section("values", ValueEntries(m, settings))] else []
  }

  /** The entries of the first section with that name, if any. */
  function SectionOf(cfg: seq<Section>, name: string): Option<Dict<string, Rendered>> {
    if |cfg| == 0 then None else if cfg[0].name == name then Some(cfg[0].entries) else SectionOf(cfg[1..], name)
  }

  /** `config[section].get(key)` on the sections. */
  function Lookup(cfg: seq<Section>, section: string, key: string): Option<Rendered> {
    match SectionOf(cfg, section)
    case None => None
    case Some(es) => Get(es, key)
  }

  /** The integer a text entry reads back as, if it is one. */
  function ReadInt(r: Option<Rendered>): Option<int> {
    if r.Some? && r.value.Exact? then Text.ParseInt(r.value.text) else None
  }

  /** Where each section is found in a generated file; `values` only when there are settings. */
  lemma GeneratedSections(m: Metadata, sv: Option<int>, name: string, definition: string, quality: string,
                          settings: Dict<string, Value>, position: Option<int>)
    ensures var cfg := GenerateInstCfg(m, sv, name, definition, quality, settings, position);
      && SectionOf(cfg, "general") == Some(GeneralEntries(name, definition))
      && SectionOf(cfg, "metadata") == Some(MetadataEntries(quality, sv, position))
      && SectionOf(cfg, "values") == if |settings| > 0 then Some(ValueEntries(m, settings)) else None
  {
    var cfg := GenerateInstCfg(m, sv, name, definition, quality, settings, position);
    assert cfg[1..][1..] == cfg[2..];
    assert SectionOf(cfg, "values") == SectionOf(cfg[1..], "values") == SectionOf(cfg[2..], "values");
    if |settings| > 0 {
      assert cfg[2..][0] == Section("values", ValueEntries(m, settings));
    } else {
      assert cfg[2..] == [];
    }
  }

  /**
   Reading a generated file's header back gives the version "4", the name, the
   definition, `quality_changes`, the quality type and the effective setting
   version; a `position` is there exactly for extruder files, with its number.
   */
  lemma HeaderReadsBack(m: Metadata, sv: Option<int>, name: string, definition: string, quality: string,
                        settings: Dict<string, Value>, position: Option<int>)
    ensures var cfg := GenerateInstCfg(m, sv, name, definition, quality, settings, position);
      && Lookup(cfg, "general", "version") == Some(Exact("4"))
      && Lookup(cfg, "general", "name") == Some(Exact(name))
      && Lookup(cfg, "general", "definition") == Some(Exact(definition))
      && Lookup(cfg, "metadata", "type") == Some(Exact("quality_changes"))
      && Lookup(cfg, "metadata", "quality_type") == Some(Exact(quality))
      && ReadInt(Lookup(cfg, "metadata", "setting_version")) == Some(SettingVersion(sv))
      && ReadInt(Lookup(cfg, "metadata", "position")) == position
  {
    GeneratedSections(m, sv, name, definition, quality, settings, position);
    GeneralFields(name, definition);
    MetadataFields(quality, sv, position);
  }

  /** The three fields of the `general` section, looked up by key. */
  lemma GeneralFields(name: string, definition: string)
    ensures Get(GeneralEntries(name, definition), "version") == Some(Exact("4"))
    ensures Get(GeneralEntries(name, definition), "name") == Some(Exact(name))
    ensures Get(GeneralEntries(name, definition), "definition") == Some(Exact(definition))
  {
    var general := GeneralEntries(name, definition);
    assert general[1..][0] == ("name", Exact(name));
    assert general[1..][1..][0] == ("definition", Exact(definition));
    assert |"version"| != |"definition"| && |"name"| != |"definition"|;
    assert Get(general, "definition") == Get(general[1..], "definition") == Get(general[1..][1..], "definition");
  }

  /** The fields of the `metadata` section, looked up by key, integers read back. */
  lemma MetadataFields(quality: string, sv: Option<int>, position: Option<int>)
    ensures Get(MetadataEntries(quality, sv, position), "type") == Some(Exact("quality_changes"))
    ensures Get(MetadataEntries(quality, sv, position), "quality_type") == Some(Exact(quality))
    ensures ReadInt(Get(MetadataEntries(quality, sv, position), "setting_version")) == Some(SettingVersion(sv))
    ensures ReadInt(Get(MetadataEntries(quality, sv, position), "position")) == position
  {
    var meta := MetadataEntries(quality, sv, position);
    assert meta[1..][0] == ("quality_type", Exact(quality));
    MetadataVersion(quality, sv, position);
    MetadataPosition(quality, sv, position);
  }

  /** The `setting_version` field holds the printed version. */
  lemma MetadataVersion(quality: string, sv: Option<int>, position: Option<int>)
    ensures ReadInt(Get(MetadataEntries(quality, sv, position), "setting_version")) == Some(SettingVersion(sv))
  {
    var version := SettingVersion(sv);
    var meta := MetadataEntries(quality, sv, position);
    assert Get(meta, "setting_version") == Some(Exact(Text.IntToString(version))) by {
      assert meta[1..][1..][0] == ("setting_version", Exact(Text.IntToString(version)));
      assert |"type"| != |"setting_version"| && |"quality_type"| != |"setting_version"|;
      assert Get(meta, "setting_version") == Get(meta[1..], "setting_version") == Get(meta[1..][1..], "setting_version");
    }
    Text.ParseIntToString(version);
  }

  /** The `position` field is there exactly for an extruder file and holds the printed position. */
  lemma MetadataPosition(quality: string, sv: Option<int>, position: Option<int>)
    ensures ReadInt(Get(MetadataEntries(quality, sv, position), "position")) == position
  {
    var meta := MetadataEntries(quality, sv, position);
    assert meta[1..][1..][1..] == meta[3..];
    assert Get(meta, "position") == Get(meta[3..], "position") by {
      assert |"type"| != |"position"| && |"quality_type"| != |"position"| && |"setting_version"| != |"position"|;
      assert Get(meta, "position") == Get(meta[1..], "position") == Get(meta[1..][1..], "position")
        == Get(meta[1..][1..][1..], "position");
    }
    if position.Some? {
      Text.ParseIntToString(position.value);
      assert meta[3..][0] == ("position", Exact(Text.IntToString(position.value)));
    } else {
      assert meta[3..] == [];
    }
  }

  /**
   Reading a generated file's settings back: the `values` section is there exactly
   when there are settings, and every setting's key gives that setting's text.
   */
  lemma ValuesReadBack(m: Metadata, sv: Option<int>, name: string, definition: string, quality: string,
                       settings: Dict<string, Value>, position: Option<int>, k: string)
    ensures var cfg := GenerateInstCfg(m, sv, name, definition, quality, settings, position);
      && (SectionOf(cfg, "values").Some? <==> |settings| > 0)
      && Lookup(cfg, "values", k) == match Get(settings, k) case Some(v) => Some(Formatted(m, k, v)) case None => None
  {
    GeneratedSections(m, sv, name, definition, quality, settings, position);
    ValueEntriesGet(m, settings, k);
  }

  lemma {:induction false} ValueEntriesGet(m: Metadata, settings: Dict<string, Value>, k: string)
    ensures Get(ValueEntries(m, settings), k) == match Get(settings, k) case Some(v) => Some(Formatted(m, k, v)) case None => None
  {
    if |settings| > 0 {
      ValueEntriesGet(m, settings[1..], k);
      assert ValueEntries(m, settings)[1..] == ValueEntries(m, settings[1..]);
    }
  }
}
