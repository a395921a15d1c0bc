# Cura profile builder: a Dafny model of its core

`cura_profile_builder.py` turns a set of slicer settings into a `.curaprofile`
archive that UltiMaker Cura can import. The archive holds one `.inst.cfg` file
for the global settings and one per extruder. This project models the core of
that script and proves properties of the model:

- **Schema index** (`schema.dfy`). The walk of the `fdmprinter.def.json` tree
  flattens it into one constraint record per setting key. Each record keeps the
  whitelisted properties and is tagged with its nearest enclosing category.
  Manufacturer `overrides` are then merged in, and a category-to-keys index is
  built. The lookups of `SettingMetadata` (type, default, label, category,
  per-extruder) fall back to defaults for keys the schema does not know.
- **Validator** (`validator.dfy`). `validate_value` coerces a value to its
  setting's type, checks enum options, and checks hard and soft numeric bounds.
  `validate_settings` runs it over a whole batch and collects errors and
  advisories in the batch's order.
- **Candidate settings** (`sources.dfy`). Three sources produce the settings:
  - the material and quality presets, merged quality first, then material, then
    custom overrides;
  - the merge of an extractor JSON document (`_key_settings` first, then the
    machine's `effective_settings` for absent keys, then the optional filter,
    then the definition fallback);
  - the manual `key=value,key=value` parser of the command line.
- **Partitioner and serializer** (`builder.dfy`, `serializer.dfy`).
  `build_curaprofile` works in four steps:
  1. It gates on the machine definition and on validation.
  2. It splits the settings into a global part and a per-extruder part.
  3. It merges the per-extruder part with explicit extruder settings, which take
     precedence.
  4. It renders each non-empty group as an `.inst.cfg` with `general`,
     `metadata` and, when there are settings, `values` sections.

  `format_value_for_cfg` renders bools as `True`/`False` and escapes newlines
  and tabs in strings.

Supporting modules:

- `wrappers.dfy` holds `Option` and `Result`.
- `dicts.dfy` models a Python dict as an insertion-ordered sequence of pairs.
  Assignment to an existing key keeps its position; `update` is a fold of
  assignments.
- `text.dfy` holds the ASCII string operations Python provides: `lower`,
  `upper`, `strip`, `split`, `int()`, `float()` and `str()` of an int.
- `values.dfy` holds the JSON/Python value type, its truthiness, its numeric
  view and the `str()` rendering of values.

Errors are modelled as values. A build returns `Result<Profile, BuildError>`. A
validation returns a `Verdict` whose message is a structured `Message`, not
rendered text. The file system, the logging and the ZIP writer are
left out: the archive is modelled as the list of its member names and section
contents.

`ValidateValue` skips a bound that is not a number, where the source raises
`TypeError`. The as-written check is `RangeCheckAsWritten` (see Findings).
`BuildProfile` and `BuildGates` validate through `ValidateValue`, so they
inherit this corrected behaviour.

## Model

| member | source | states |
|---|---|---|
| `Schema.RecordOf` | cura_profile_builder.py:354-363 | A setting's record carries its category under `_category` and, of the node's properties, exactly the fifteen whitelisted ones it has. |
| `Schema.TreeRecords` | cura_profile_builder.py:344-367 | After the tree walk, a key's record is the record of the last typed non-category node under that key in walk order (children before their parent, siblings in order), so a later duplicate overwrites an earlier one; a key has a record exactly when such a node exists. The record is tagged with the node's nearest enclosing category; the top-level key counts as a category. |
| `Schema.OverlayFields` | cura_profile_builder.py:369-374 | An override's fields win over the old record's, the other old fields stay, `_source` names the definition file, and a key without a record gets just the override plus `_source`. |
| `Schema.ApplyOverridesGet` | cura_profile_builder.py:369-374 | The override loop changes exactly the overridden keys, each to its overlaid record, and leaves every other record untouched. |
| `Schema.Load` | cura_profile_builder.py:395-416 | The metadata counts as loaded exactly when a definition was parsed. A missing or unparsable file leaves the empty, unloaded state. |
| `Schema.CategoryIndexSpec` | cura_profile_builder.py:408-413 | Each category lists exactly the keys of its records, in extraction order. A record without `_category` goes under `other`, and categories without records are absent. |
| `Schema.SettingsInCategorySpec` | cura_profile_builder.py:508-510 | After a load, `get_settings_in_category` gives exactly the keys whose nearest category is the one asked for; an unknown category gives an empty list. |
| `Schema.UnknownKeyDefaults` | cura_profile_builder.py:418-446 | For a key the schema does not know: type and category are `unknown`, the default is None, the label is the key itself, and the setting is not per-extruder. |
| `Validator.Coerce` | cura_profile_builder.py:460-472 | For `int`: an int stays, a float truncates toward zero, a bool becomes 0 or 1, a string succeeds exactly when `int()` parses it and gives that number, and None, a list or a dict fails. For `float`: ints and floats stay, a bool gives 0 or 1, a string succeeds exactly when `float()` parses it, and None, a list or a dict fails. For `bool`: a string is true exactly when its lower-case form is `true`, `1` or `yes`; any other value gives its truthiness. Other types leave the value as it is. |
| `Validator.ValidateValue` | cura_profile_builder.py:448-502 | An unknown key passes with no message. A verdict is valid exactly when its message is empty or only advisory. |
| `Validator.HardBounds` | cura_profile_builder.py:481-490 | For any int or float setting whose value coerces: a value strictly below the minimum, when the minimum is a number, is rejected naming the minimum, checked first. Otherwise a value strictly above a numeric maximum is rejected naming the maximum. Otherwise the verdict is valid; a bound that is absent or not a number rejects nothing. |
| `Validator.SingleHardBound` | cura_profile_builder.py:487-490 | With a numeric minimum the value is below, the verdict rejects naming that minimum. With no minimum and a numeric maximum the value is above, it rejects naming that maximum. |
| `Validator.ConversionFailureRejected` | cura_profile_builder.py:460-478 | For a known non-enum setting, a value its type cannot coerce is rejected with a conversion-failed message naming the value and the type. |
| `Validator.SoftBounds` | cura_profile_builder.py:492-502 | Inside the hard bounds the value is valid. Crossing the soft minimum, the soft maximum or both gives one advisory listing them, minimum first. Crossing neither gives no message. |
| `Validator.EnumOptions` | cura_profile_builder.py:473-476 | An enum value is accepted exactly when it is a string among the option keys. Any other hashable value is rejected with the option keys listed. |
| `Validator.BoolNeverRejected` | cura_profile_builder.py:467-472 | A `bool` setting accepts every value without a message. |
| `Validator.OtherTypesAccepted` | cura_profile_builder.py:457-502 | Settings of a type other than int, float or enum are accepted without a message, whatever the value. |
| `Validator.BoolCoercionIgnoresCase` | cura_profile_builder.py:469-470 | Coercing a string to bool does not depend on its letter case. |
| `Validator.IntCoercionExamples` | cura_profile_builder.py:461-463 | `int()` turns `True` into 1, truncates -2.5 to -2 and fails on None. |
| `Validator.IntCoercionRoundTrip` | cura_profile_builder.py:461-463 | An int setting given the decimal text of any integer coerces back to that integer. |
| `Validator.IntCoercionParsesDigits` | cura_profile_builder.py:461-463 | An int setting parses the text "12" as 12. |
| `Validator.IntCoercionRejectsFraction` | cura_profile_builder.py:461-463 | An int setting fails to coerce the text "1.5": a fraction is not an integer literal. |
| `Validator.TruncatedValuePassesMaximum` | cura_profile_builder.py:461-490 | An int setting with maximum 100 accepts 100.5, because coercion truncates before the range check, but rejects 101.0. |
| `Validator.RangeCheckAsWritten` | cura_profile_builder.py:480-502 | As written, a minimum that is present but not a number raises `TypeError`. A rejection that the range check does return names a hard bound. |
| `Validator.AsWrittenAgrees` | cura_profile_builder.py:487-500 | Where every bound is absent, null or numeric, the as-written range check and the model's check return the same verdict. |
| `Validator.StringBoundRaisesAsWritten` | cura_profile_builder.py:487-488 | As written, validating 5 against the string minimum "0" raises `TypeError`. |
| `Validator.StringBoundSkipped` | cura_profile_builder.py:487-488 | The model skips a bound it cannot compare and accepts 5 against the string minimum "0". |
| `Validator.ValidateSettings` | cura_profile_builder.py:649-667 | A batch is all-valid exactly when it has no errors. Unloaded metadata skips validation with exactly one warning. |
| `Validator.BatchReport` | cura_profile_builder.py:660-667 | With loaded metadata, the errors are the rejected entries, in order, with their messages. The warnings are the advised entries, in order. The batch is all-valid exactly when every entry validates. |
| `Serializer.Escape` | cura_profile_builder.py:519-521 | An escaped string contains no raw newline and no raw tab. |
| `Serializer.EscapeIsCharwise` | cura_profile_builder.py:521 | The two chained replacements equal escaping each character on its own. |
| `Serializer.UnescapeEscape` | cura_profile_builder.py:521 | For a string without backslashes, unescaping the escaped text gives back the string. |
| `Serializer.EscapeNotInjective` | cura_profile_builder.py:521 | The text `\n` (backslash, n) and a real newline escape to the same output, so the escape cannot always be undone. |
| `Serializer.FormatForCfg` | cura_profile_builder.py:512-524 | A `bool` setting renders as `True`/`False` by the value's truthiness. A string value of a `str` or `extruder` setting renders as text with no newline or tab. Everything else renders as Python's `str()`. |
| `Serializer.BoolReadsBack` | cura_profile_builder.py:516-517 | A rendered bool setting reads back as true exactly when the value was truthy. |
| `Serializer.StrReadsBack` | cura_profile_builder.py:518-521 | A rendered string without backslashes reads back, after unescaping, as the original string. |
| `Serializer.IntReadsBack` | cura_profile_builder.py:522-524 | A rendered int of a non-bool setting parses back as the same int. |
| `Serializer.SettingVersion` | cura_profile_builder.py:694 | The written setting version is never 0: a given nonzero version is kept, and a missing or zero one falls back to 23. |
| `Serializer.GenerateInstCfg` | cura_profile_builder.py:669-713 | A file has `general` and `metadata` sections, plus `values` exactly when there are settings. The `values` section has exactly the settings' keys. |
| `Serializer.GeneratedSections` | cura_profile_builder.py:683-709 | Looked up by name, the sections hold the general fields, the metadata fields and the formatted settings; `values` is absent when there are no settings. |
| `Serializer.HeaderReadsBack` | cura_profile_builder.py:683-698 | The header reads back as: version 4, the profile name, the definition, `quality_changes`, the quality type and the effective setting version. A position is there exactly for extruder files, with its number. |
| `Serializer.ValuesReadBack` | cura_profile_builder.py:700-709 | Every key of the settings reads back as its formatted value (`str()` when the metadata is not loaded), and no other key is present. |
| `Builder.Examples` | cura_profile_builder.py:740 | The definitions named in an unknown-definition error are the first ten of the known list, or the whole list when it is shorter. |
| `Builder.Sanitize` | cura_profile_builder.py:764 | The safe file name has the profile name's length and only letters, digits, `_` and `-`. |
| `Builder.SanitizeSpec` | cura_profile_builder.py:764 | Each unsafe character becomes `_` and safe ones stay. A name is its own safe name exactly when it is all safe characters, and sanitising twice changes nothing more. |
| `Builder.Partition` | cura_profile_builder.py:753-761 | The global and extruder parts split the settings with no key in both and no key lost. A key goes to the extruder part exactly when the metadata is loaded and marks it per-extruder, keeping its value. Without metadata, everything stays global. |
| `Builder.MergedSpec` | cura_profile_builder.py:776-783 | Position 0 comes first, and positions are unique. A position is present exactly when it is 0 or given explicitly. Each key's value comes from the explicit extruder settings when set there, and otherwise, for position 0, from the per-extruder part. |
| `Builder.GroupsNonEmpty` | cura_profile_builder.py:785-786 | Every extruder file that is written has settings, and no position is written twice. |
| `Builder.GroupsSpec` | cura_profile_builder.py:776-794 | A position gets an extruder file exactly when there is extruder work at all and its merged settings are non-empty; the file holds those merged settings. |
| `Builder.BuildProfile` | cura_profile_builder.py:738-816 | A build fails only on an unknown definition or on validation errors. A successful one writes the global file first, under the safe name. |
| `Builder.BuildGates` | cura_profile_builder.py:738-746 | An unknown definition is reported exactly when the known list is non-empty and the definition is neither in it nor `fdmprinter`. Past that gate, a build succeeds exactly when the global settings validate, and otherwise reports their errors. Extruder settings never decide success. |
| `Builder.UnloadedAlwaysBuilds` | cura_profile_builder.py:743-758 | Without metadata, a build with an accepted definition succeeds and logs only the skipped-validation warning. |
| `Builder.BuildArchive` | cura_profile_builder.py:763-811 | The archive holds the global file (the global part, no position) followed by one file per non-empty extruder group, in order. Each extruder file has all three sections. |
| `Builder.ArchiveNamesDistinct` | cura_profile_builder.py:807-811 | No two files of a built archive share a name. |
| `Builder.GlobalNotExtruder` | cura_profile_builder.py:809-811 | The global file's name never equals an extruder file's name. |
| `Builder.ExtruderNameInjective` | cura_profile_builder.py:811 | Different extruder positions give different file names. |
| `Sources.PresetPrecedence` | cura_profile_builder.py:839-845 | In the merged preset settings, each key takes the override's value if it has one, else the material's, else the quality's. |
| `Sources.BuildFromPreset` | cura_profile_builder.py:830-853 | The material is looked up upper-cased and checked first, then the quality lower-cased. An unknown one is reported with the available names. Otherwise the merged settings are built with the lower-cased quality type and no extruder settings. |
| `Sources.PresetNamesIgnoreCase` | cura_profile_builder.py:830-837 | For known preset names, the build result does not depend on the letter case in which the material and quality are given. |
| `Sources.PlaDraft` | cura_profile_builder.py:100-187 | PLA on draft gives the two draft layer heights followed by the six PLA settings, with their exact values. |
| `Sources.FromJson` | cura_profile_builder.py:873-909 | On success, every key reads the value the `_key_settings`/`effective_settings` merge gives it, except that with a non-empty filter a key outside the filter reads nothing. The result is `NoSettings` exactly when the merge succeeds and the filter leaves none of its keys. A given definition is kept, and without one the definition is the one `JsonDefinition` derives from the inheritance chain; the only other failure is a document of the wrong shape. |
| `Sources.JsonMergeGet` | cura_profile_builder.py:873-891 | With keys unique in both sections: a key whose `_key_settings` entry gives a value (a dict entry's non-None `value`, or the entry itself when it is not a dict) reads that value. Any other key reads, from its `effective_settings` entry, the first truthy of `effective_value`, `value` and `default_value` (the last of them when none is truthy), and reads nothing when that is None or there is no entry. |
| `Sources.KeySettingsGet` | cura_profile_builder.py:876-883 | A curated entry contributes its `value` when it is an object with a non-null one, and itself when it is not an object; otherwise the key is skipped. |
| `Sources.FillAbsentGet` | cura_profile_builder.py:886-891 | Effective settings only fill keys that are still absent. An absent key takes the first truthy of `effective_value`, `value` and `default_value`, or the last of them when it is not null. |
| `Sources.EffectivePickSpec` | cura_profile_builder.py:889-891 | The `or` chain picks `effective_value` if truthy, else `value` if truthy, else `default_value` unless that is null. |
| `Sources.EffectivePickExamples` | cura_profile_builder.py:889-890 | An effective value of 0 falls through to `value`, `False` falls through to a default of 0, and a lone null gives nothing. |
| `Sources.JsonDefinitionDefaults` | cura_profile_builder.py:900-909 | For any document: without a machine, or with a missing, null or empty chain, the definition is `fdmprinter`. When the chain's first entry is a dict, it is that entry's string `name`, or `fdmprinter` when it has none. A machine that is not a dict is malformed. |
| `Sources.BuildFromJson` | cura_profile_builder.py:867-920 | A JSON build succeeds exactly when the merge succeeds, its definition passes the definition gate (or no definitions are known), and every merged setting validates. A failed merge's error is reported as is. |
| `Sources.ParseScalar` | cura_profile_builder.py:1035-1044 | A manual value becomes a bool exactly when it is `true`/`false` in any case, with the matching truth value. With a dot it becomes a float when `float()` parses it; without one, an int when `int()` parses it. Otherwise it stays the same string. |
| `Sources.ScalarIntRoundTrip` | cura_profile_builder.py:1041-1042 | The decimal text of an int parses back as that int. |
| `Sources.ManualItem` | cura_profile_builder.py:1033-1045 | An item yields a pair exactly when it contains `=`. The pair is then the stripped text before the first `=` and the scalar reading of everything after it, so the key holds no `=` and no surrounding whitespace. |
| `Sources.ManualItemSplit` | cura_profile_builder.py:1033-1045 | `key=<text>` with a stripped, `=`-free key reads back as that key and the scalar reading of the text, whatever the text holds (including further `=`). |
| `Sources.ManualItemRoundTrip` | cura_profile_builder.py:1033-1045 | `key=<int>` with a stripped, `=`-free key reads back as that key and int. |
| `Sources.ParseManualLastWins` | cura_profile_builder.py:1031-1045 | The parsed settings have one entry per distinct key, and each key's value is the one its last item assigns. |
| `Text.SplitJoin` | cura_profile_builder.py:1032 | Joining the comma-split pieces with commas gives back the argument. |
| `Text.SplitPieces` | cura_profile_builder.py:1032 | No piece of the comma split contains a comma, so the pieces are exactly the text between separators. |

## Findings

| source | as written | input that shows it | evidently intended | confidence | as-written member | corrected member |
|---|---|---|---|---|---|---|
| cura_profile_builder.py:487-497 | each bound that is not None is compared to the value with `<`/`>` outside the `try` of :460-478, so a bound that is not a number raises `TypeError` out of `validate_value`, and out of `build_curaprofile` | an `int` setting whose record has `minimum_value` = `"0"` (Cura's definition files write bounds as strings) and the value 5 | bounds are numeric limits; a bound that cannot be compared should not abort validation | not executed | `Validator.RangeCheckAsWritten` (counterexample `Validator.StringBoundRaisesAsWritten`) | `Validator.ValidateValue` (with `Validator.StringBoundSkipped`, `Validator.AsWrittenAgrees`) |

## Left out

- File I/O: locating the Cura installation, reading definition files, `discover_definitions`, writing the ZIP archive and choosing the output path. A definition is a parameter (`Load(None)` for a missing or unparsable file), the known definitions are a list, and the archive is the list of its members.
- Logging, the command-line dispatch, `list_presets`, the title-based profile names and `get_all_categories` are presentation and are not modelled.
- Message text: errors and advisories are structured values (`Message`, `BuildError`), not rendered strings. Python's `str()` of floats, lists and dicts is kept symbolic (`Rendered.PyStr`).
- Floats are modelled as reals. IEEE rounding, `inf`, `nan` and the `OverflowError` of `int(inf)` are not modelled.
- Python's `int()` and `float()` parse the ASCII forms: sign, digits, an optional fraction and exponent, surrounding whitespace. Underscore separators, `inf`/`nan` and non-ASCII digits are not modelled. `lower`, `upper`, `strip` and the `\w` class of the safe name are modelled for ASCII.
- configparser writes option keys lower-cased and emits text. The model keeps the keys as given (Cura's setting keys are lower case) and models the sections as key/value lists.
- `Validator.ValidateValue`: an enum record whose `options` is not an object is treated as an empty option table. The source would test membership in that value directly and, for a list or string, could accept the value or raise `AttributeError` on `keys()`.
- `Sources.FromJson`: the model takes the document's top level as an object (`Dict<string, Value>`). For a list or string top level that lacks the `_key_settings` and `machine` keys, the source returns "No settings found"; for a number, bool or null top level it raises `TypeError`; indexing a list or string that does contain them raises too.
- `Sources.FromJson`: a first chain entry whose `name` is not a string is reported as `Malformed`, where the source passes it on as the definition.
- `Sources.FromJson`: the exceptions `build_from_json` lets escape are reported as `Malformed`: a `_key_settings` value, `machine` value, `effective_settings` value, `effective_settings` entry or first chain entry that is not a dict where the code indexes or calls `.get`/`.items()` on it, and a non-empty chain that is not a list.
- `Schema.Load` models a first load on a fresh `SettingMetadata`; a second `load` on the same object, which would append to the existing category lists, is not modelled.
- Extruder positions are integers; the source accepts any dict key.
