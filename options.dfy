/** Option declarations of a manifest and how a raw value becomes an option
    value (craftr/core/manifest.py, `BaseOption`, `BoolOption`,
    `TripletOption`, `StringOption` and the body of the loop in
    `Manifest.get_options_namespace`). Option values are Python values; the
    model uses `Json` for them, `JNull` standing for `None`. */
module Options {
  import opened Base
  import opened Json
  import opened Text

  datatype OptionKind = BoolOption | TripletOption | StringOption

  /** A constructed option. `BaseOption.__init__` stores `name` and
      `inherit` and sets `help` to `None` whatever it is given, so `help`
      leaves no trace; each kind stores its `default`. */
  datatype OptionDecl = OptionDecl(kind: OptionKind, name: string, inherit: Json, default: Json)

  /** The `default` a kind takes when the manifest gives none. */
  function KindDefault(kind: OptionKind): Json {
    match kind
    case BoolOption => JBool(false)
    case TripletOption => JNull
    case StringOption => JStr("")
  }

  const TrueWords: set<string> := {"yes", "true", "1"}
  const FalseWords: set<string> := {"no", "false", "0"}
  const NullWords: set<string> := {"null", "none"}

  /** The `ValueError` a coercion raises, with the value its message shows. */
  datatype CoerceFault = BadBool(word: string) | BadTriplet(value: Json)

  /** `BoolOption.__call__` for an option whose default is `default`. */
  function CoerceBool(default: Json, value: Json): Result<Json, CoerceFault> {
    if value.JStr? then
      var word := Lower(Strip(value.s));
      if word in TrueWords then Ok(JBool(true))
      else if word in FalseWords then Ok(JBool(false))
      else if word == "" then Ok(default)
      else Err(BadBool(word))
    else Ok(JBool(Truthy(value)))
  }

  /** `TripletOption.__call__`: the `BoolOption` conversion, and when that
      raises, "null" and "none" give `None`. The branch for a `None` value
      is kept as written; `CoerceBool` never raises for a value that is not
      a `str`, so it is never taken (see `TripletNoneIsFalse`). */
  function CoerceTriplet(default: Json, value: Json): Result<Json, CoerceFault> {
    match CoerceBool(default, value)
    case Ok(r) => Ok(r)
    case Err(_) =>
      if value.JStr? then
        var word := Lower(Strip(value.s));
        if word in NullWords then Ok(JNull) else Err(BadTriplet(JStr(word)))
      else if value.JNull? then Ok(JNull)
      else Err(BadTriplet(value))
  }

  /** `option(value)`, dispatching on the kind; `StringOption` returns its
      argument unchanged. */
  function Coerce(opt: OptionDecl, value: Json): Result<Json, CoerceFault> {
    match opt.kind
    case BoolOption => CoerceBool(opt.default, value)
    case TripletOption => CoerceTriplet(opt.default, value)
    case StringOption => Ok(value)
  }

  /** A bool option turns every string that is not an accepted word into an
      error, and every other value into its truth value: it never yields
      anything but a `bool` or its own default. */
  lemma BoolResults(default: Json, value: Json)
    ensures CoerceBool(default, value).Err? ==> value.JStr?
    ensures CoerceBool(default, value).Ok? ==>
      CoerceBool(default, value).value.JBool? || CoerceBool(default, value).value == default
    ensures !value.JStr? ==> CoerceBool(default, value) == Ok(JBool(Truthy(value)))
  {
  }

  /** Case and surrounding whitespace do not matter to a bool option. */
  lemma BoolIgnoresCaseAndPadding(default: Json, w1: string, s: string, w2: string)
    requires AllSpace(w1) && AllSpace(w2)
    ensures CoerceBool(default, JStr(w1 + s + w2)) == CoerceBool(default, JStr(Lower(s)))
  {
    StripIgnoresPadding(w1, s, w2);
    LowerStripCommute(s);
    LowerLower(Strip(s));
  }

  /** The documented conversions: "YES", " true " and "1" give `True`,
      "no", "False" and "0" give `False`, "" gives the default and "maybe"
      is an error. */
  lemma BoolTrueExamples(default: Json)
    ensures CoerceBool(default, JStr("YES")) == Ok(JBool(true))
    ensures CoerceBool(default, JStr("1")) == Ok(JBool(true))
  {
    WordOfPlain("YES");
    assert Lower("YES") == "yes" by {
      assert "YES"[1..] == "ES" && "ES"[1..] == "S" && "S"[1..] == "";
    }
    WordOfPlain("1");
    LowerNoUpper("1");
  }

  lemma BoolPaddedExample(default: Json)
    ensures CoerceBool(default, JStr(" true ")) == Ok(JBool(true))
  {
    WordOf(" ", "true", " ");
    LowerNoUpper("true");
    assert " " + "true" + " " == " true ";
  }

  lemma BoolFalseExamples(default: Json)
    ensures CoerceBool(default, JStr("no")) == Ok(JBool(false))
    ensures CoerceBool(default, JStr("0")) == Ok(JBool(false))
  {
    WordOfPlain("no");
    LowerNoUpper("no");
    WordOfPlain("0");
    LowerNoUpper("0");
  }

  lemma BoolCapitalisedExample(default: Json)
    ensures CoerceBool(default, JStr("False")) == Ok(JBool(false))
  {
    WordOfPlain("False");
    assert Lower("False") == "false" by {
      assert "False"[1..] == "alse";
      LowerNoUpper("alse");
    }
  }

  lemma BoolOtherExamples(default: Json)
    ensures CoerceBool(default, JStr("")) == Ok(default)
    ensures CoerceBool(default, JStr("maybe")) == Err(BadBool("maybe"))
  {
    WordOfPlain("maybe");
    LowerNoUpper("maybe");
  }

  lemma WordOfPlain(s: string)
    requires s != [] && !IsSpace(s[0]) && !IsSpace(s[|s| - 1])
    ensures Lower(Strip(s)) == Lower(s)
  {
    assert TrimLeft(s) == s;
    assert TrimRight(s) == s;
  }

  /** The word a padded value is compared as. */
  lemma WordOf(w1: string, s: string, w2: string)
    requires AllSpace(w1) && AllSpace(w2)
    requires s != [] && !IsSpace(s[0]) && !IsSpace(s[|s| - 1])
    ensures Lower(Strip(w1 + s + w2)) == Lower(s)
  {
    StripIgnoresPadding(w1, s, w2);
    assert TrimLeft(s) == s;
    assert TrimRight(s) == s;
  }

  /** A triplet option agrees with a bool option wherever the bool option
      succeeds, and where it fails exactly "null" and "none" (after strip and
      lower-casing) give `None`. */
  lemma TripletExtendsBool(default: Json, value: Json)
    ensures CoerceBool(default, value).Ok? ==> CoerceTriplet(default, value) == CoerceBool(default, value)
    ensures CoerceBool(default, value).Err? ==>
      (CoerceTriplet(default, value) == Ok(JNull) <==> Lower(Strip(value.s)) in NullWords)
    ensures CoerceTriplet(default, value).Err? <==>
      CoerceBool(default, value).Err? && Lower(Strip(value.s)) !in NullWords
  {
  }

  /** `TripletOption()(None)` is `False`, not `None`: the bool conversion
      answers `bool(None)` before the `value is None` branch is reached. */
  lemma TripletNoneIsFalse(default: Json)
    ensures CoerceTriplet(default, JNull) == Ok(JBool(false))
  {
  }

  /** The outcome of one iteration of the loop in `get_options_namespace`:
      the value stored under the option's key, and the `(option, value,
      exc)` entry appended to `errors`, if any. */
  datatype OptionError = OptionError(option: OptionDecl, value: Json, fault: CoerceFault)
  datatype Resolution = Resolution(value: Json, error: Option<OptionError>)

  /** The raw value the provider supplies for `opt` of package `pkg`: the
      qualified key `pkg.name` first (`NotImplemented` when absent); only
      when that is absent and `inherit` is truthy the bare name, through
      `provider.get`, which gives `None` when it is absent too. */
  function RawValue(pkg: string, opt: OptionDecl, provider: map<string, Json>): Option<Json> {
    var qualified := pkg + "." + opt.name;
    if qualified in provider then Some(provider[qualified])
    else if Truthy(opt.inherit) then Some(if opt.name in provider then provider[opt.name] else JNull)
    else None
  }

  function Resolve(pkg: string, opt: OptionDecl, provider: map<string, Json>): Resolution {
    match RawValue(pkg, opt, provider)
    case None => Resolution(opt.default, None)
    case Some(raw) =>
      if raw.JNull? then Resolution(opt.default, None)
      else match Coerce(opt, raw)
        case Ok(v) => Resolution(v, None)
        case Err(fault) => Resolution(opt.default, Some(OptionError(opt, raw, fault)))
  }

  /** Which key decides: the qualified key wins over the bare name, and the
      bare name is consulted only for an inheriting option whose qualified
      key is absent. */
  lemma QualifiedKeyWins(pkg: string, opt: OptionDecl, provider: map<string, Json>)
    ensures pkg + "." + opt.name in provider ==> RawValue(pkg, opt, provider) == Some(provider[pkg + "." + opt.name])
    ensures pkg + "." + opt.name !in provider && opt.name in provider && Truthy(opt.inherit)
      ==> RawValue(pkg, opt, provider) == Some(provider[opt.name])
    ensures pkg + "." + opt.name !in provider && !Truthy(opt.inherit)
      ==> Resolve(pkg, opt, provider) == Resolution(opt.default, None)
  {
  }

  /** An absent or `None` value yields the default without an error; a value
      that fails to convert yields the default and one error entry naming
      the option and the raw value; otherwise the converted value is
      stored. */
  lemma ResolveOutcomes(pkg: string, opt: OptionDecl, provider: map<string, Json>)
    ensures RawValue(pkg, opt, provider) in {None, Some(JNull)} ==> Resolve(pkg, opt, provider) == Resolution(opt.default, None)
    ensures Resolve(pkg, opt, provider).error.Some? ==>
      && Resolve(pkg, opt, provider).value == opt.default
      && RawValue(pkg, opt, provider) == Some(Resolve(pkg, opt, provider).error.value.value)
      && Resolve(pkg, opt, provider).error.value.option == opt
      && Coerce(opt, Resolve(pkg, opt, provider).error.value.value).Err?
    ensures (RawValue(pkg, opt, provider).Some? && !RawValue(pkg, opt, provider).value.JNull?
      && Coerce(opt, RawValue(pkg, opt, provider).value).Ok?) ==>
      Resolve(pkg, opt, provider) == Resolution(Coerce(opt, RawValue(pkg, opt, provider).value).value, None)
  {
  }

  /** Only bool and triplet options can report an error, and only for a
      `str` value. */
  lemma ErrorsOnlyForStrings(pkg: string, opt: OptionDecl, provider: map<string, Json>)
    ensures Resolve(pkg, opt, provider).error.Some? ==>
      opt.kind != StringOption && Resolve(pkg, opt, provider).error.value.value.JStr?
  {
  }
}
