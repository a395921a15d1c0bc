/**
 The value validator: `SettingMetadata.validate_value` (type coercion, enum
 membership, hard then soft numeric bounds) and `CuraBuilder.validate_settings`,
 which validates a whole batch and collects every error and advisory in order.
 */
module Validator {
  import opened Wrappers
  import opened Dicts
  import opened Values
  import opened Schema
  import Text

  /** A soft bound a value crossed: `below recommended {b}` / `above recommended {b}`. */
  datatype SoftNote = BelowRecommended(bound: Value) | AboveRecommended(bound: Value)

  /**
   The message half of `validate_value`'s result, kept as its parts: the kind,
   the (coerced) value and the bound or option keys it names.
   */
  datatype Message =
    | NoMessage                                       // ""
    | InvalidOption(value: Value, valid: seq<string>) // "Invalid option '{value}'. Valid: [...]"
    | ConversionFailed(value: Value, target: Value)   // "Type conversion failed: {e}"
    | BelowMinimum(value: Value, bound: Value)        // "Value {value} below minimum {min}"
    | AboveMaximum(value: Value, bound: Value)        // "Value {value} above maximum {max}"
    | Advisory(value: Value, notes: seq<SoftNote>)    // "Value {value} " + ", ".join(notes)

  /** `(is_valid, message)` */
  datatype Verdict = Verdict(valid: bool, msg: Message)

  /** `info.get("type", "unknown")` */
  function TypeOf(r: Record): Value {
    Get(r, "type").GetOr(Str("unknown"))
  }

  predicate IsNumericType(t: Value) {
    t == Str("int") || t == Str("float")
  }

  /** `int(x)` of a float: truncation toward zero. */
  function Trunc(x: real): (i: int)
    ensures 0.0 <= x ==> i as real <= x < i as real + 1.0
    ensures x < 0.0 ==> i as real - 1.0 < x <= i as real
  {
    if x >= 0.0 then x.Floor else -((-x).Floor)
  }

  /**
   The coercion step of `validate_value`: `int(value)` for `int` settings unless the
   value already is a (non-bool) int, `float(value)` for `float` settings unless it is
   already a (non-bool) number, and for `bool` settings a case-insensitive
   "true"/"1"/"yes" test on strings and truthiness on everything else. None is the
   `ValueError`/`TypeError` case. Other types are not coerced.
   */
  function Coerce(t: Value, v: Value): (r: Option<Value>)
    ensures t == Str("int") && r.Some? ==> r.value.Int?
    ensures t == Str("float") && r.Some? ==> r.value.Int? || r.value.Float?
    ensures IsNumericType(t) && (v.Null? || v.List? || v.Object?) ==> r.None?
    ensures IsNumericType(t) && v.Bool? ==> r.Some? && Num(r.value) == Num(v)
    ensures t == Str("int") && v.Int? ==> r == Some(v)
    ensures t == Str("int") && v.Float? ==> r.Some? && r.value.Int? && r.value.i == Trunc(v.r)
    ensures t == Str("int") && v.Str? ==>
      (r.Some? <==> Text.ParseInt(v.s).Some?) && (r.Some? ==> r.value == Int(Text.ParseInt(v.s).value))
    ensures t == Str("float") && (v.Int? || v.Float?) ==> r == Some(v)
    ensures t == Str("float") && v.Str? ==>
      (r.Some? <==> Text.ParseFloat(v.s).Some?) && (r.Some? ==> r.value == Float(Text.ParseFloat(v.s).value))
    ensures t == Str("bool") && v.Str? ==> r == Some(Bool(Text.Lower(v.s) in ["true", "1", "yes"]))
    ensures t == Str("bool") && !v.Str? ==> r == Some(Bool(Truthy(v)))
    ensures !IsNumericType(t) && t != Str("bool") ==> r == Some(v)
  {
    if t == Str("int") then
      match v
      case Int(_) => Some(v)
      case Bool(b) => Some(Int(if b then 1 else 0))
      case Float(x) => Some(Int(Trunc(x)))
      case Str(s) =>
        (match Text.ParseInt(s)
         case Some(i) => Some(Int(i))
         case None => None)
      case _ => None
    else if t == Str("float") then
      match v
      case Int(_) => Some(v)
      case Float(_) => Some(v)
      case Bool(b) => Some(Float(if b then 1.0 else 0.0))
      case Str(s) =>
        (match Text.ParseFloat(s)
         case Some(x) => Some(Float(x))
         case None => None)
      case _ => None
    else if t == Str("bool") then
      match v
      case Bool(_) => Some(v)
      case Str(s) => Some(Bool(Text.Lower(s) in ["true", "1", "yes"]))
      case _ => Some(Bool(Truthy(v)))
    else Some(v)
  }

  /** The keys of an `options` object; an options entry that is not an object lists none. */
  function OptionKeys(options: Value): seq<string> {
    if options.Object? then Keys(options.fields) else []
  }

  /**
   `value in options` against the options' keys: only a string can equal a key;
   a list or object value is unhashable, which raises `TypeError` (None).
   */
  function InOptions(options: Value, v: Value): Option<bool> {
    match v
    case List(_) => None
    case Object(_) => None
    case Str(s) => Some(s in OptionKeys(options))
    case _ => Some(false)
  }

  /** A bound that takes part in the range check: present and a number. */
  function Limit(r: Record, prop: string): (b: Option<Value>)
    ensures b.Some? <==> Get(r, prop).Some? && IsNumber(Get(r, prop).value)
    ensures b.Some? ==> b == Get(r, prop)
  {
    match Get(r, prop)
    case Some(x) => if IsNumber(x) then Some(x) else None
    case None => None
  }

  predicate Below(n: real, b: Option<Value>) {
    b.Some? && Num(b.value).Some? && n < Num(b.value).value
  }

  predicate Above(n: real, b: Option<Value>) {
    b.Some? && Num(b.value).Some? && n > Num(b.value).value
  }

  /** The range check of a numeric setting: hard bounds reject, soft bounds only advise. */
  function RangeVerdict(r: Record, x: Value): (res: Verdict)
    requires IsNumber(x)
    ensures res.valid <==> res.msg.NoMessage? || res.msg.Advisory?
  {
    var n := Num(x).value;
    var lo := Limit(r, "minimum_value");
    var hi := Limit(r, "maximum_value");
    var loWarn := Limit(r, "minimum_value_warning");
    var hiWarn := Limit(r, "maximum_value_warning");
    if Below(n, lo) then Verdict(false, BelowMinimum(x, lo.value))
    else if Above(n, hi) then Verdict(false, AboveMaximum(x, hi.value))
    else
      var notes := (if Below(n, loWarn) then [BelowRecommended(loWarn.value)] else [])
        + (if Above(n, hiWarn) then [AboveRecommended(hiWarn.value)] else []);
      if |notes| > 0 then Verdict(true, Advisory(x, notes)) else Verdict(true, NoMessage)
  }

  /** `SettingMetadata.validate_value` */
  function ValidateValue(m: Metadata, key: string, v: Value): (r: Verdict)
    ensures key !in Keys(m.settings) ==> r == Verdict(true, NoMessage)
    ensures r.valid <==> r.msg.NoMessage? || r.msg.Advisory?
  {
    GetHas(m.settings, key);
    match Get(m.settings, key)
    case None => Verdict(true, NoMessage)
    case Some(rec) =>
      var t := TypeOf(rec);
      if t == Str("enum") then
        var options := Get(rec, "options").GetOr(Object([]));
        match InOptions(options, v)
        case None => Verdict(false, ConversionFailed(v, t))
        case Some(found) =>
          if found then Verdict(true, NoMessage) else Verdict(false, InvalidOption(v, OptionKeys(options)))
      else
        match Coerce(t, v)
        case None => Verdict(false, ConversionFailed(v, t))
        case Some(x) => if IsNumericType(t) then RangeVerdict(rec, x) else Verdict(true, NoMessage)
  }

  // ----- properties of a single validation -----

  /** A numeric setting whose value converts: the verdict is the range check of the converted value. */
  lemma NumericVerdict(m: Metadata, key: string, v: Value, rec: Record, x: Value)
    requires Get(m.settings, key) == Some(rec) && IsNumericType(TypeOf(rec))
    requires Coerce(TypeOf(rec), v) == Some(x)
    ensures IsNumber(x) && ValidateValue(m, key, v) == RangeVerdict(rec, x)
  {
  }

  /**
   Hard bounds of an `int`/`float` setting: a value strictly below the minimum is
   rejected naming the minimum (checked first), one strictly above the maximum is
   rejected naming the maximum, and values between them, both ends included, pass.
   */
  lemma HardBounds(m: Metadata, key: string, v: Value, rec: Record, x: Value)
    requires Get(m.settings, key) == Some(rec) && IsNumericType(TypeOf(rec))
    requires Coerce(TypeOf(rec), v) == Some(x)
    ensures Num(x).Some?
    ensures Below(Num(x).value, Limit(rec, "minimum_value")) ==>
      ValidateValue(m, key, v) == Verdict(false, BelowMinimum(x, Get(rec, "minimum_value").value))
    ensures !Below(Num(x).value, Limit(rec, "minimum_value")) && Above(Num(x).value, Limit(rec, "maximum_value")) ==>
      ValidateValue(m, key, v) == Verdict(false, AboveMaximum(x, Get(rec, "maximum_value").value))
    ensures !Below(Num(x).value, Limit(rec, "minimum_value")) && !Above(Num(x).value, Limit(rec, "maximum_value")) ==>
      ValidateValue(m, key, v).valid
  {
    NumericVerdict(m, key, v, rec, x);
  }

  /**
   Each hard bound works on its own: a numeric minimum rejects a value strictly
   below it whatever the maximum, and a numeric maximum with no minimum rejects a
   value strictly above it.
   */
  lemma SingleHardBound(m: Metadata, key: string, v: Value, rec: Record, x: Value, b: Value)
    requires Get(m.settings, key) == Some(rec) && IsNumericType(TypeOf(rec))
    requires Coerce(TypeOf(rec), v) == Some(x)
    requires IsNumber(b)
    ensures Get(rec, "minimum_value") == Some(b) && Num(x).value < Num(b).value ==>
      ValidateValue(m, key, v) == Verdict(false, BelowMinimum(x, b))
    ensures Get(rec, "minimum_value").None? && Get(rec, "maximum_value") == Some(b) && Num(x).value > Num(b).value ==>
      ValidateValue(m, key, v) == Verdict(false, AboveMaximum(x, b))
  {
    NumericVerdict(m, key, v, rec, x);
  }

  /** A value that coercion cannot convert is rejected with the conversion failure, for every non-enum type. */
  lemma ConversionFailureRejected(m: Metadata, key: string, v: Value, rec: Record)
    requires Get(m.settings, key) == Some(rec) && TypeOf(rec) != Str("enum")
    requires Coerce(TypeOf(rec), v).None?
    ensures ValidateValue(m, key, v) == Verdict(false, ConversionFailed(v, TypeOf(rec)))
  {
  }

  /** The decimal text of an int coerces back to that int. */
  lemma IntCoercionRoundTrip(i: int)
    ensures Coerce(Str("int"), Str(Text.IntToString(i))) == Some(Int(i))
  {
    Text.ParseIntToString(i);
  }

  /** The soft bounds crossed by a numeric value, minimum first. */
  predicate CrossedLow(rec: Record, x: Value) {
    Num(x).Some? && Below(Num(x).value, Limit(rec, "minimum_value_warning"))
  }

  predicate CrossedHigh(rec: Record, x: Value) {
    Num(x).Some? && Above(Num(x).value, Limit(rec, "maximum_value_warning"))
  }

  /**
   Soft bounds of an `int`/`float` setting, for a value inside its hard bounds: it is
   always accepted; with one advisory listing each crossed soft bound, minimum first,
   or with an empty message when it crosses none.
   */
  lemma SoftBounds(m: Metadata, key: string, v: Value, rec: Record, x: Value)
    requires Get(m.settings, key) == Some(rec) && IsNumericType(TypeOf(rec))
    requires Coerce(TypeOf(rec), v) == Some(x)
    requires !Below(Num(x).value, Limit(rec, "minimum_value")) && !Above(Num(x).value, Limit(rec, "maximum_value"))
    ensures ValidateValue(m, key, v).valid
    ensures CrossedLow(rec, x) && CrossedHigh(rec, x) ==>
      ValidateValue(m, key, v).msg == Advisory(x, [BelowRecommended(Get(rec, "minimum_value_warning").value),
                                                   AboveRecommended(Get(rec, "maximum_value_warning").value)])
    ensures CrossedLow(rec, x) && !CrossedHigh(rec, x) ==>
      ValidateValue(m, key, v).msg == Advisory(x, [BelowRecommended(Get(rec, "minimum_value_warning").value)])
    ensures !CrossedLow(rec, x) && CrossedHigh(rec, x) ==>
      ValidateValue(m, key, v).msg == Advisory(x, [AboveRecommended(Get(rec, "maximum_value_warning").value)])
    ensures !CrossedLow(rec, x) && !CrossedHigh(rec, x) ==> ValidateValue(m, key, v) == Verdict(true, NoMessage)
  {
    NumericVerdict(m, key, v, rec, x);
    SoftRange(rec, x);
  }

  /** The soft-bound part of the range check on its own, for a number inside the hard bounds. */
  lemma SoftRange(rec: Record, x: Value)
    requires IsNumber(x)
    requires !Below(Num(x).value, Limit(rec, "minimum_value")) && !Above(Num(x).value, Limit(rec, "maximum_value"))
    ensures RangeVerdict(rec, x).valid
    ensures CrossedLow(rec, x) && CrossedHigh(rec, x) ==>
      RangeVerdict(rec, x).msg == Advisory(x, [BelowRecommended(Get(rec, "minimum_value_warning").value),
                                               AboveRecommended(Get(rec, "maximum_value_warning").value)])
    ensures CrossedLow(rec, x) && !CrossedHigh(rec, x) ==>
      RangeVerdict(rec, x).msg == Advisory(x, [BelowRecommended(Get(rec, "minimum_value_warning").value)])
    ensures !CrossedLow(rec, x) && CrossedHigh(rec, x) ==>
      RangeVerdict(rec, x).msg == Advisory(x, [AboveRecommended(Get(rec, "maximum_value_warning").value)])
    ensures !CrossedLow(rec, x) && !CrossedHigh(rec, x) ==> RangeVerdict(rec, x) == Verdict(true, NoMessage)
  {
  }

  /**
   Enum settings: a string among the option keys is accepted; anything else is
   rejected, and a rejected hashable value's message lists every option key.
   */
  lemma EnumOptions(m: Metadata, key: string, v: Value, rec: Record)
    requires Get(m.settings, key) == Some(rec) && TypeOf(rec) == Str("enum")
    ensures var options := Get(rec, "options").GetOr(Object([]));
      && (ValidateValue(m, key, v).valid <==> v.Str? && v.s in OptionKeys(options))
      && (!v.List? && !v.Object? && !(v.Str? && v.s in OptionKeys(options)) ==>
            ValidateValue(m, key, v) == Verdict(false, InvalidOption(v, OptionKeys(options))))
  {
  }

  /** A `bool` setting is never rejected, and never gets a message. */
  lemma BoolNeverRejected(m: Metadata, key: string, v: Value, rec: Record)
    requires Get(m.settings, key) == Some(rec) && TypeOf(rec) == Str("bool")
    ensures ValidateValue(m, key, v) == Verdict(true, NoMessage)
  {
  }

  /** Settings whose type is neither numeric, `bool` nor `enum` (or is missing) are accepted as they are. */
  lemma OtherTypesAccepted(m: Metadata, key: string, v: Value, rec: Record)
    requires Get(m.settings, key) == Some(rec)
    requires !IsNumericType(TypeOf(rec)) && TypeOf(rec) != Str("enum")
    ensures ValidateValue(m, key, v) == Verdict(true, NoMessage)
  {
  }

  /** The `bool` coercion ignores letter case: "TRUE", "Yes" and "true" coerce alike. */
  lemma {:induction false} BoolCoercionIgnoresCase(s: string)
    ensures Coerce(Str("bool"), Str(s)) == Coerce(Str("bool"), Str(Text.Upper(s)))
  {
    assert Text.Lower(Text.Upper(s)) == Text.Lower(s);
  }

  /** The `int` coercion converts a bool rather than keeping it, truncates toward zero and fails on None. */
  lemma IntCoercionExamples()
    ensures Coerce(Str("int"), Bool(true)) == Some(Int(1))
    ensures Coerce(Str("int"), Float(-2.5)) == Some(Int(-2))
    ensures Coerce(Str("int"), Null) == None
  {
  }

  /** `int("12")` is 12. */
  lemma IntCoercionParsesDigits()
    ensures Coerce(Str("int"), Str("12")) == Some(Int(12))
  {
    Text.ParseFloatDigits("12");
    assert Text.DigitsValue("12") == 12 by {
      assert "12"[..1] == "1";
    }
  }

  /** `int("1.5")` fails: a fraction is not an integer literal. */
  lemma IntCoercionRejectsFraction()
    ensures Coerce(Str("int"), Str("1.5")) == None
  {
    Text.ParseIntRejectsFraction();
  }

  /**
   The bound check runs on the coerced value, but the caller keeps the original:
   an `int` setting with maximum 100 accepts the float 100.5, because `int(100.5)`
   is 100.
   */
  lemma TruncatedValuePassesMaximum(m: Metadata, key: string)
    requires Get(m.settings, key) == Some([("type", Str("int")), ("maximum_value", Int(100))])
    ensures ValidateValue(m, key, Float(100.5)) == Verdict(true, NoMessage)
    ensures !ValidateValue(m, key, Float(101.0)).valid
  {
  }

  // ----- the range check as the source writes it -----

  /** The exception Python raises when `<` meets a number and a non-number. */
  datatype Raised = TypeError

  /** Python's `a < b` for a number `a`: defined against numbers, `TypeError` against anything else. */
  function LessAsWritten(a: Value, b: Value): (r: Result<bool, Raised>)
    requires IsNumber(a)
    ensures r.Success? <==> IsNumber(b)
  {
    if IsNumber(b) then Success(Num(a).value < Num(b).value) else Failure(TypeError)
  }

  /** `info.get(prop)`: a JSON null and an absent field both read as None. */
  function Field(r: Record, prop: string): Value {
    Get(r, prop).GetOr(Null)
  }

  /**
   The range check exactly as written: each bound that is not None is compared
   with `<`/`>` directly, outside the `try`, so a bound that is not a number
   (Cura's own definitions write bounds as strings such as "0") raises.
   */
  function RangeCheckAsWritten(r: Record, x: Value): (res: Result<Verdict, Raised>)
    requires IsNumber(x)
    ensures Field(r, "minimum_value") != Null && !IsNumber(Field(r, "minimum_value")) ==> res == Failure(TypeError)
    ensures res.Success? && !res.value.valid ==> res.value.msg.BelowMinimum? || res.value.msg.AboveMaximum?
  {
    var lo := Field(r, "minimum_value");
    var hi := Field(r, "maximum_value");
    var loWarn := Field(r, "minimum_value_warning");
    var hiWarn := Field(r, "maximum_value_warning");
    var belowLo := if lo == Null then Success(false) else LessAsWritten(x, lo);
    if belowLo.Failure? then Failure(belowLo.error)
    else if belowLo.value then Success(Verdict(false, BelowMinimum(x, lo)))
    else
      var aboveHi := if hi == Null then Success(false) else GreaterAsWritten(x, hi);
      if aboveHi.Failure? then Failure(aboveHi.error)
      else if aboveHi.value then Success(Verdict(false, AboveMaximum(x, hi)))
      else
        var belowWarn := if loWarn == Null then Success(false) else LessAsWritten(x, loWarn);
        if belowWarn.Failure? then Failure(belowWarn.error)
        else
          var aboveWarn := if hiWarn == Null then Success(false) else GreaterAsWritten(x, hiWarn);
          if aboveWarn.Failure? then Failure(aboveWarn.error)
          else
            var notes := (if belowWarn.value then [BelowRecommended(loWarn)] else [])
              + (if aboveWarn.value then [AboveRecommended(hiWarn)] else []);
            Success(if |notes| > 0 then Verdict(true, Advisory(x, notes)) else Verdict(true, NoMessage))
  }

  /** Python's `a > b` for a number `a`. */
  function GreaterAsWritten(a: Value, b: Value): (r: Result<bool, Raised>)
    requires IsNumber(a)
    ensures r.Success? <==> IsNumber(b)
  {
    if IsNumber(b) then Success(Num(a).value > Num(b).value) else Failure(TypeError)
  }

  /** A bound field the source can compare: absent, null, or a number. */
  predicate Comparable(r: Record, prop: string) {
    Field(r, prop) == Null || IsNumber(Field(r, prop))
  }

  /**
   Where the source's comparisons are defined (every bound absent, null or a
   number), the as-written check and the model's check give the same verdict.
   */
  lemma AsWrittenAgrees(r: Record, x: Value)
    requires IsNumber(x)
    requires Comparable(r, "minimum_value") && Comparable(r, "maximum_value")
    requires Comparable(r, "minimum_value_warning") && Comparable(r, "maximum_value_warning")
    ensures RangeCheckAsWritten(r, x) == Success(RangeVerdict(r, x))
  {
  }

  /** The counterexample: an `int` setting whose minimum is the string "0", as in Cura's definitions, and the value 5. */
  const StringBoundRecord: Record := [("type", Str("int")), ("minimum_value", Str("0"))]

  /** As written, validating 5 against a string minimum raises `TypeError` out of `validate_value`. */
  lemma StringBoundRaisesAsWritten()
    ensures RangeCheckAsWritten(StringBoundRecord, Int(5)) == Failure(TypeError)
  {
  }

  /** The model skips the bound it cannot compare and accepts 5. */
  lemma StringBoundSkipped(m: Metadata, key: string)
    requires Get(m.settings, key) == Some(StringBoundRecord)
    ensures ValidateValue(m, key, Int(5)) == Verdict(true, NoMessage)
    ensures Limit(StringBoundRecord, "minimum_value") == None
  {
  }

  // ----- a whole batch -----

  /** One line of the error or warning list: `f"{key}: {msg}"`. */
  datatype Finding = Finding(key: string, msg: Message)

  datatype Warning = ValidationSkipped | Advice(finding: Finding)

  /** `(all_valid, errors, warnings)` */
  datatype Report = Report(allValid: bool, errors: seq<Finding>, warnings: seq<Warning>)

  /** The errors and the advisories of a batch, in the batch's order. */
  function Collect(m: Metadata, s: Dict<string, Value>): (seq<Finding>, seq<Finding>)
    decreases |s|
  {
    if |s| == 0 then ([], [])
    else
      var rest := Collect(m, s[1..]);
      var r := ValidateValue(m, s[0].0, s[0].1);
      if !r.valid then ([Finding(s[0].0, r.msg)] + rest.0, rest.1)
      else if r.msg != NoMessage then (rest.0, [Finding(s[0].0, r.msg)] + rest.1)
      else rest
  }

  function Advices(fs: seq<Finding>): (ws: seq<Warning>)
    ensures |ws| == |fs|
    ensures forall i :: 0 <= i < |fs| ==> ws[i] == Advice(fs[i])
  {
    if |fs| == 0 then [] else [Advice(fs[0])] + Advices(fs[1..])
  }

  /** `CuraBuilder.validate_settings` */
  function ValidateSettings(m: Metadata, s: Dict<string, Value>): (r: Report)
    ensures r.allValid <==> |r.errors| == 0
    ensures !m.loaded ==> r == Report(true, [], [ValidationSkipped])
  {
    if !m.loaded then Report(true, [], [ValidationSkipped])
    else
      var c := Collect(m, s);
      Report(|c.0| == 0, c.0, Advices(c.1))
  }

  // ----- the reference for a batch: filter the rejected and the advised entries -----

  function Rejects(m: Metadata): (string, Value) -> bool {
    (k: string, v: Value) => !ValidateValue(m, k, v).valid
  }

  function Advised(m: Metadata): (string, Value) -> bool {
    (k: string, v: Value) => ValidateValue(m, k, v).msg.Advisory?
  }

  /** Each entry of `d` with its validation message. */
  function Findings(m: Metadata, d: Dict<string, Value>): (fs: seq<Finding>)
    ensures |fs| == |d|
    ensures forall i :: 0 <= i < |d| ==> fs[i] == Finding(d[i].0, ValidateValue(m, d[i].0, d[i].1).msg)
  {
    if |d| == 0 then [] else [Finding(d[0].0, ValidateValue(m, d[0].0, d[0].1).msg)] + Findings(m, d[1..])
  }

  lemma {:induction false} CollectIsFilter(m: Metadata, s: Dict<string, Value>)
    ensures Collect(m, s).0 == Findings(m, Filter(s, Rejects(m)))
    ensures Collect(m, s).1 == Findings(m, Filter(s, Advised(m)))
    decreases |s|
  {
    if |s| > 0 {
      CollectIsFilter(m, s[1..]);
      var r := ValidateValue(m, s[0].0, s[0].1);
      assert Rejects(m)(s[0].0, s[0].1) == !r.valid;
      assert Advised(m)(s[0].0, s[0].1) == r.msg.Advisory?;
    }
  }

  /**
   A batch with loaded metadata: the errors are the rejected entries and the
   advisories the advised ones, each with its message, in the batch's order; the
   batch is valid exactly when every entry is, so advisories never block it.
   */
  lemma BatchReport(m: Metadata, s: Dict<string, Value>)
    requires m.loaded
    ensures ValidateSettings(m, s).errors == Findings(m, Filter(s, Rejects(m)))
    ensures ValidateSettings(m, s).warnings == Advices(Findings(m, Filter(s, Advised(m))))
    ensures ValidateSettings(m, s).allValid <==> forall i :: 0 <= i < |s| ==> ValidateValue(m, s[i].0, s[i].1).valid
  {
    CollectIsFilter(m, s);
    NoneRejected(m, s);
  }

  lemma {:induction false} NoneRejected(m: Metadata, s: Dict<string, Value>)
    ensures |Filter(s, Rejects(m))| == 0 <==> forall i :: 0 <= i < |s| ==> ValidateValue(m, s[i].0, s[i].1).valid
    decreases |s|
  {
    if |s| > 0 {
      NoneRejected(m, s[1..]);
      assert forall i :: 1 <= i < |s| ==> s[i] == s[1..][i - 1];
      if !ValidateValue(m, s[0].0, s[0].1).valid {
        assert Rejects(m)(s[0].0, s[0].1);
      }
    }
  }
}
