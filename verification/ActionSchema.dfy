/** Action definitions: parameter schemas, templates and parameter values (app/modules/actions). */
module ActionSchema {
  import opened Wrappers
  import opened Sequences
  import opened Texts
  import opened Decimal
  import opened Shell

  const MAX_PARAMS := 10
  const MAX_ARGV_TOKENS := 32
  const MAX_STRING_LENGTH := 256
  const MAX_INT_DIGITS := 4300
  const MAX_TIMEOUT_SECONDS := 300

  type Digit = d: nat | d < 10

  /** What the program asks of code outside it. */
  datatype Platform = Platform(
    compiles: string -> bool,              // re.compile
    matches: (string, string) -> bool,     // re.fullmatch(pattern, text)
    otherDigit: char -> Option<Digit>,     // decimal digits outside ASCII
    resolves: string -> bool)              // resolve_binary

  datatype ExecutionType = Local | Ssh

  datatype ParamType = StringType | IntegerType | ChoiceType

  datatype ParamSpec = ParamSpec(
    name: string, kind: ParamType, pattern: Option<string>, minimum: Option<int>, maximum: Option<int>,
    choices: Option<seq<string>>, required: bool, secret: bool)

  type Specs = map<string, ParamSpec>

  // ---------------------------------------------------------------- names and placeholders

  /** `[a-z]` ignoring case, which for Unicode text adds four letters. */
  predicate IsLetter(c: char) {
    'a' <= c <= 'z' || 'A' <= c <= 'Z' || c as int in {0x130, 0x131, 0x17F, 0x212A}
  }

  predicate IsNameChar(c: char) {
    IsLetter(c) || IsDigit(c) || c == '_'
  }

  /** `[a-z][a-z0-9_]*`, ignoring case. */
  predicate IsName(s: string) {
    s != "" && IsLetter(s[0]) && forall i :: 0 <= i < |s| ==> IsNameChar(s[i])
  }

  /** `$` also matches before a newline at the end. */
  function BeforeFinalNewline(s: string): string {
    if s != "" && s[|s| - 1] == '\n' then s[..|s| - 1] else s
  }

  predicate IsParamName(s: string) {
    IsName(BeforeFinalNewline(s)) && |BeforeFinalNewline(s)| <= 32
  }

  /** The group of `PLACEHOLDER.match(token)`. */
  function PlaceholderName(token: string): (r: Option<string>)
    ensures r.Some? ==> IsName(r.value) && |r.value| <= 32
    ensures r.Some? ==> token == "{" + r.value + "}" || token == "{" + r.value + "}\n"
  {
    var t := BeforeFinalNewline(token);
    if |t| >= 3 && t[0] == '{' && t[|t| - 1] == '}' && IsName(t[1..|t| - 1]) && |t| <= 34 then
      assert t == "{" + t[1..|t| - 1] + "}";
      Some(t[1..|t| - 1])
    else None
  }

  /** A token is a placeholder exactly when it is a short enough name in braces, or that and a newline. */
  lemma PlaceholderNameIff(token: string, name: string)
    ensures PlaceholderName(token) == Some(name) <==>
      IsName(name) && |name| <= 32 && (token == "{" + name + "}" || token == "{" + name + "}\n")
  {
    var t := "{" + name + "}";
    assert t[|t| - 1] == '}' && t[1..|t| - 1] == name;
    assert (t + "\n")[..|t|] == t;
    assert "{" + name + "}\n" == t + "\n";
  }

  predicate PlaceholderAt(token: string, i: nat, j: nat) {
    i + 1 < j < |token| && token[i] == '{' && token[j] == '}' && IsName(token[i + 1..j])
  }

  /** `EMBEDDED.search(token)`. */
  predicate EmbedsPlaceholder(token: string) {
    exists i, j :: 0 <= i < |token| && 0 <= j < |token| && PlaceholderAt(token, i, j)
  }

  // ---------------------------------------------------------------- whole numbers

  function DigitOf(c: char, platform: Platform): Option<Digit> {
    if IsDigit(c) then Some(DigitValue(c)) else platform.otherDigit(c)
  }

  /** The digits in ASCII. */
  function AsciiDigits(s: string, platform: Platform): (r: Option<string>)
    ensures r.Some? ==> |r.value| == |s| && AllDigits(r.value)
  {
    if s == "" then Some("")
    else
      match (AsciiDigits(s[..|s| - 1], platform), DigitOf(s[|s| - 1], platform)) {
        case (Some(before), Some(d)) => Some(before + [DigitChar(d)])
        case _ => None
      }
  }

  /** Digits with single underscores between them. */
  function GroupedDigits(parts: seq<string>, platform: Platform): (r: Option<string>)
    ensures r.Some? ==> AllDigits(r.value) && (parts != [] ==> r.value != "")
  {
    if parts == [] then Some("")
    else if parts[|parts| - 1] == "" then None
    else
      match (GroupedDigits(parts[..|parts| - 1], platform), AsciiDigits(parts[|parts| - 1], platform)) {
        case (Some(before), Some(last)) => Some(before + last)
        case _ => None
      }
  }

  function ReadDigits(s: string, platform: Platform): Option<nat> {
    match GroupedDigits(SplitOn(s, '_'), platform)
    case Some(digits) => if |digits| <= MAX_INT_DIGITS then Some(Value(digits)) else None
    case None => None
  }

  /** `int(text)`. */
  function ReadInt(text: string, platform: Platform): Option<int> {
    var s := Strip(text);
    var signed := s != "" && (s[0] == '-' || s[0] == '+');
    match ReadDigits(if signed then s[1..] else s, platform)
    case None => None
    case Some(n) =>
      Some(if signed && s[0] == '-' then 0 - n as int else n as int)
  }

  /** `str(number)`. */
  function PrintInt(n: int): string {
    if n < 0 then "-" + Print(-n) else Print(n)
  }

  lemma {:induction false} AsciiStays(s: string, platform: Platform)
    requires AllDigits(s)
    ensures AsciiDigits(s, platform) == Some(s)
  {
    if s != "" {
      AsciiStays(s[..|s| - 1], platform);
      InitLast(s);
    }
  }

  lemma GroupOfOne(s: string, platform: Platform)
    requires AllDigits(s) && s != ""
    ensures GroupedDigits([s], platform) == Some(s)
  {
    AsciiStays(s, platform);
    var one := [s];
    assert one[|one| - 1] == s && one[..|one| - 1] == [];
    assert "" + s == s;
  }

  lemma ReadPrintedDigits(n: nat, platform: Platform)
    requires |Print(n)| <= MAX_INT_DIGITS
    ensures ReadDigits(Print(n), platform) == Some(n)
  {
    SplitWithout(Print(n), '_');
    GroupOfOne(Print(n), platform);
    ReadPrinted(n);
  }

  lemma StripNothing(s: string)
    requires s != "" && !IsSpace(s[0]) && !IsSpace(s[|s| - 1])
    ensures Strip(s) == s
  {
  }

  /** A printed whole number reads back. */
  lemma ReadPrintedInt(n: int, platform: Platform)
    requires |PrintInt(n)| <= MAX_INT_DIGITS
    ensures ReadInt(PrintInt(n), platform) == Some(n)
  {
    var s := PrintInt(n);
    var digits := Print(if n < 0 then -n else n);
    assert IsDigit(digits[0]) && IsDigit(digits[|digits| - 1]);
    StripNothing(s);
    ReadPrintedDigits(if n < 0 then -n else n, platform);
    if n < 0 {
      assert s[1..] == digits;
    }
  }

  lemma {:induction false} GroupedLength(parts: seq<string>, platform: Platform)
    ensures GroupedDigits(parts, platform).Some? ==> |GroupedDigits(parts, platform).value| <= |Join(parts, "")|
  {
    if parts != [] {
      GroupedLength(parts[..|parts| - 1], platform);
      JoinLast(parts);
    }
  }

  lemma {:induction false} JoinLast(parts: seq<string>)
    requires parts != []
    ensures |Join(parts, "")| == |Join(parts[..|parts| - 1], "")| + |parts[|parts| - 1]|
  {
    if |parts| > 1 {
      JoinLast(parts[1..]);
      assert parts[1..][..|parts| - 2] == parts[..|parts| - 1][1..];
    }
  }

  lemma {:induction false} SplitLength(s: string, sep: char)
    ensures |Join(SplitOn(s, sep), "")| <= |s|
  {
    if s != "" {
      SplitLength(s[1..], sep);
      var rest := SplitOn(s[1..], sep);
      if s[0] == sep {
        assert ([""] + rest)[1..] == rest;
      } else {
        assert ([[s[0]] + rest[0]] + rest[1..])[1..] == rest[1..];
      }
    }
  }

  lemma ReadDigitsShrink(s: string, platform: Platform)
    requires ReadDigits(s, platform).Some?
    ensures |Print(ReadDigits(s, platform).value)| <= |s|
  {
    GroupedLength(SplitOn(s, '_'), platform);
    SplitLength(s, '_');
    PrintIsShortest(GroupedDigits(SplitOn(s, '_'), platform).value);
  }

  lemma {:induction false} StripShrinks(s: string)
    ensures |Strip(s)| <= |s| && forall c :: c in Strip(s) ==> c in s
  {
    if s != "" {
      if IsSpace(s[0]) {
        StripShrinks(s[1..]);
      } else if IsSpace(s[|s| - 1]) {
        StripShrinks(s[..|s| - 1]);
      }
    }
  }

  /** The canonical spelling is no longer than any other. */
  lemma ReadIntShrinks(text: string, platform: Platform)
    requires ReadInt(text, platform).Some?
    ensures |PrintInt(ReadInt(text, platform).value)| <= |text|
  {
    var s := Strip(text);
    StripShrinks(text);
    ReadDigitsShrink(if s != "" && (s[0] == '-' || s[0] == '+') then s[1..] else s, platform);
  }

  // ---------------------------------------------------------------- parameter values

  datatype ValueError =
    | Required | TooLong | HoldsNul | NotWholeNumber | TooSmall | TooLarge | NotAChoice | DoesNotMatch

  predicate Bounded(n: int, spec: ParamSpec) {
    && (spec.minimum.Some? ==> n >= spec.minimum.value)
    && (spec.maximum.Some? ==> n <= spec.maximum.value)
  }

  function CoerceInteger(text: string, spec: ParamSpec, platform: Platform): Result<string, ValueError> {
    match ReadInt(text, platform)
    case None => Failure(NotWholeNumber)
    case Some(n) =>
      if spec.minimum.Some? && n < spec.minimum.value then Failure(TooSmall)
      else if spec.maximum.Some? && n > spec.maximum.value then Failure(TooLarge)
      else Success(PrintInt(n))
  }

  /** `coerce`, on the strings that a submitted form holds. */
  function Coerce(value: Option<string>, spec: ParamSpec, platform: Platform): Result<string, ValueError> {
    if value.None? || value.value == "" then
      if spec.required then Failure(Required) else Success("")
    else
      var text := value.value;
      if |text| > MAX_STRING_LENGTH then Failure(TooLong)
      else if NUL in text then Failure(HoldsNul)
      else if spec.kind.IntegerType? then CoerceInteger(text, spec, platform)
      else if spec.choices.Some? && text !in spec.choices.value then Failure(NotAChoice)
      else if spec.pattern.Some? && !platform.matches(spec.pattern.value, text) then Failure(DoesNotMatch)
      else Success(text)
  }

  /** What a parameter's value must be to reach a command. */
  ghost predicate Fits(text: string, spec: ParamSpec, platform: Platform) {
    if text == "" then !spec.required
    else
      && |text| <= MAX_STRING_LENGTH && NUL !in text
      && if spec.kind.IntegerType? then
           exists n: int :: PrintInt(n) == text && Bounded(n, spec)
         else
           && (spec.choices.Some? ==> text in spec.choices.value)
           && (spec.pattern.Some? ==> platform.matches(spec.pattern.value, text))
  }

  lemma PrintedHasNoNul(n: int)
    ensures NUL !in PrintInt(n) && PrintInt(n) != ""
  {
  }

  /** Coerced values fit, and the values that fit are the ones coercion leaves alone. */
  lemma CoerceMeansFits(value: Option<string>, spec: ParamSpec, platform: Platform, text: string)
    ensures Coerce(value, spec, platform) == Success(text) ==> Fits(text, spec, platform)
    ensures Fits(text, spec, platform) <==> Coerce(Some(text), spec, platform) == Success(text)
  {
    if Coerce(value, spec, platform) == Success(text) && text != "" && spec.kind.IntegerType? {
      ReadIntShrinks(value.value, platform);
      PrintedHasNoNul(ReadInt(value.value, platform).value);
    }
    if Fits(text, spec, platform) && text != "" && spec.kind.IntegerType? {
      var n :| PrintInt(n) == text && Bounded(n, spec);
      ReadPrintedInt(n, platform);
    }
  }

  /** Validating a validated value changes nothing. */
  lemma CoerceIsIdempotent(value: Option<string>, spec: ParamSpec, platform: Platform)
    requires Coerce(value, spec, platform).Success?
    ensures Coerce(Some(Coerce(value, spec, platform).value), spec, platform) == Coerce(value, spec, platform)
  {
    CoerceMeansFits(value, spec, platform, Coerce(value, spec, platform).value);
  }

  // ---------------------------------------------------------------- stored schemas

  datatype Json =
    | Null | Bool(b: bool) | Int(i: int) | Real(r: real) | Text(s: string)
    | List(items: seq<Json>) | Object(fields: map<string, Json>)

  datatype SchemaError =
    | NotAnObject | TooManyParams | BadName | BadDefinition | BadType | PatternNotText | UselessPattern
    | PatternNotValid | NeedsPattern | BadChoices | ChoiceNotText | BadBound

  const USELESS_PATTERNS := {".*", "^.*$", ".+", "^.+$", "", "^$", "(.*)", "^(.*)$"}

  /** `bool(value)`. */
  predicate Truthy(j: Json) {
    match j
    case Null => false
    case Bool(b) => b
    case Int(i) => i != 0
    case Real(r) => r != 0.0
    case Text(s) => s != ""
    case List(items) => items != []
    case Object(fields) => |fields| != 0
  }

  function Get(definition: map<string, Json>, name: string, default: Json): Json {
    if name in definition then definition[name] else default
  }

  function ReadType(j: Json): Result<ParamType, SchemaError> {
    if j == Text("string") then Success(StringType)
    else if j == Text("integer") then Success(IntegerType)
    else if j == Text("choice") then Success(ChoiceType)
    else Failure(BadType)
  }

  function ReadPattern(j: Json, platform: Platform): Result<Option<string>, SchemaError> {
    match j
    case Null => Success(None)
    case Text(pattern) =>
      if Strip(pattern) in USELESS_PATTERNS then Failure(UselessPattern)
      else if !platform.compiles(pattern) then Failure(PatternNotValid)
      else Success(Some(pattern))
    case _ => Failure(PatternNotText)
  }

  predicate AllTexts(items: seq<Json>) {
    forall i :: 0 <= i < |items| ==> items[i].Text?
  }

  function ReadChoices(j: Json): Result<Option<seq<string>>, SchemaError> {
    match j
    case Null => Success(None)
    case List(items) =>
      if items == [] then Failure(BadChoices)
      else if !AllTexts(items) then Failure(ChoiceNotText)
      else Success(Some(seq(|items|, i requires 0 <= i < |items| => items[i].s)))
    case _ => Failure(BadChoices)
  }

  /** `_optional_int`; a JSON number is truncated toward zero. */
  function OptionalInt(j: Json, platform: Platform): Result<Option<int>, SchemaError> {
    match j
    case Null => Success(None)
    case Bool(b) => Success(Some(if b then 1 else 0))
    case Int(i) => Success(Some(i))
    case Real(r) => Success(Some(if r >= 0.0 then r.Floor else -((-r).Floor)))
    case Text(s) =>
      var n := ReadInt(s, platform);
      if n.None? then Failure(BadBound) else Success(n)
    case _ => Failure(BadBound)
  }

  /** One turn of the loop in `parse_schema`. */
  function ParseEntry(name: string, definition: Json, execution: ExecutionType, platform: Platform): Result<ParamSpec, SchemaError> {
    if !IsParamName(name) then Failure(BadName)
    else if !definition.Object? then Failure(BadDefinition)
    else
      var fields := definition.fields;
      var kind :- ReadType(Get(fields, "type", Text("string")));
      var pattern :- ReadPattern(Get(fields, "pattern", Null), platform);
      if execution.Ssh? && kind.StringType? && pattern.None? && !Truthy(Get(fields, "choices", Null)) then Failure(NeedsPattern)
      else
        var choices :- ReadChoices(Get(fields, "choices", Null));
        var minimum :- OptionalInt(Get(fields, "min", Null), platform);
        var maximum :- OptionalInt(Get(fields, "max", Null), platform);
        Success(ParamSpec(name, kind, pattern, minimum, maximum, choices,
                          Truthy(Get(fields, "required", Bool(true))), Truthy(Get(fields, "secret", Bool(false)))))
  }

  type EntryParser = (string, Json) -> Result<ParamSpec, SchemaError>

  function Entries(execution: ExecutionType, platform: Platform): EntryParser {
    (name: string, definition: Json) => ParseEntry(name, definition, execution, platform)
  }

  /** The entries that `specs` names parse, to what it holds. */
  predicate ParsesTo(fields: map<string, Json>, specs: Specs, parse: EntryParser) {
    specs.Keys <= fields.Keys && forall n :: n in specs ==> parse(n, fields[n]) == Success(specs[n])
  }

  predicate SchemaAccepted(raw: Json, specs: Specs, execution: ExecutionType, platform: Platform) {
    raw.Object? && |raw.fields| <= MAX_PARAMS && specs.Keys == raw.fields.Keys && ParsesTo(raw.fields, specs, Entries(execution, platform))
  }

  /** The entries are those parsed and those left to parse. */
  predicate Remaining(fields: map<string, Json>, rest: set<string>, specs: Specs) {
    rest !! specs.Keys && rest + specs.Keys == fields.Keys
  }

  lemma OneMoreParsed(fields: map<string, Json>, rest: set<string>, specs: Specs, parse: EntryParser, name: string)
    requires Remaining(fields, rest, specs) && ParsesTo(fields, specs, parse) && name in rest && parse(name, fields[name]).Success?
    ensures var more := specs[name := parse(name, fields[name]).value];
      Remaining(fields, rest - {name}, more) && ParsesTo(fields, more, parse)
  {
    assert specs[name := parse(name, fields[name]).value].Keys == specs.Keys + {name};
  }

  /** What a refusal of a schema says: its shape, its size, or some entry. */
  predicate SchemaFaults(e: SchemaError, raw: Json, execution: ExecutionType, platform: Platform) {
    || (e == NotAnObject && !raw.Object?)
    || (e == TooManyParams && raw.Object? && |raw.fields| > MAX_PARAMS)
    || (raw.Object? && |raw.fields| <= MAX_PARAMS
        && exists n :: n in raw.fields && Entries(execution, platform)(n, raw.fields[n]) == Failure(e))
  }

  /** `parse_schema`; which of several faulty entries is reported depends on the order of the object. */
  method ParseSchema(raw: Json, execution: ExecutionType, platform: Platform) returns (r: Result<Specs, SchemaError>)
    ensures r.Success? ==> SchemaAccepted(raw, r.value, execution, platform)
    ensures r.Failure? ==> SchemaFaults(r.error, raw, execution, platform)
  {
    if !raw.Object? {
      return Failure(NotAnObject);
    }
    if |raw.fields| > MAX_PARAMS {
      return Failure(TooManyParams);
    }
    var parse := Entries(execution, platform);
    var specs: Specs := map[];
    var rest := raw.fields.Keys;
    while rest != {}
      invariant Remaining(raw.fields, rest, specs) && ParsesTo(raw.fields, specs, parse)
      decreases rest
    {
      var name :| name in rest;
      var spec := parse(name, raw.fields[name]);
      if spec.Failure? {
        return Failure(spec.error);
      }
      OneMoreParsed(raw.fields, rest, specs, parse, name);
      specs := specs[name := spec.value];
      rest := rest - {name};
    }
    return Success(specs);
  }

  lemma ParsedEntry(name: string, definition: Json, execution: ExecutionType, platform: Platform)
    requires ParseEntry(name, definition, execution, platform).Success?
    ensures var spec := ParseEntry(name, definition, execution, platform).value;
      && spec.name == name && IsParamName(name)
      && ReadPattern(Get(definition.fields, "pattern", Null), platform) == Success(spec.pattern)
      && ReadChoices(Get(definition.fields, "choices", Null)) == Success(spec.choices)
      && (execution.Ssh? && spec.kind.StringType? && spec.pattern.None? ==> Truthy(Get(definition.fields, "choices", Null)))
  {
  }

  /** What every accepted schema guarantees of its parameters. */
  lemma AcceptedSpecs(raw: Json, specs: Specs, execution: ExecutionType, platform: Platform, name: string)
    requires SchemaAccepted(raw, specs, execution, platform) && name in specs
    ensures var spec := specs[name];
      && spec.name == name && IsParamName(name)
      && (spec.pattern.Some? ==> platform.compiles(spec.pattern.value) && Strip(spec.pattern.value) !in USELESS_PATTERNS)
      && (spec.choices.Some? ==> spec.choices.value != [])
      && (execution.Ssh? && spec.kind.StringType? ==> spec.pattern.Some? || spec.choices.Some?)
  {
    ParsedEntry(name, raw.fields[name], execution, platform);
  }

  lemma CoercedTextMatches(value: Option<string>, spec: ParamSpec, platform: Platform, text: string)
    requires !spec.kind.IntegerType? && Coerce(value, spec, platform) == Success(text) && text != ""
    ensures spec.pattern.Some? ==> platform.matches(spec.pattern.value, text)
    ensures spec.choices.Some? ==> text in spec.choices.value
  {
  }

  /**
   * The rule SSH actions rest on: a text a parameter puts into a command was matched by a pattern
   * that constrains it, or is one of the choices.
   */
  lemma SshTextIsConstrained(raw: Json, specs: Specs, platform: Platform, name: string, value: Option<string>, text: string)
    requires SchemaAccepted(raw, specs, Ssh, platform) && name in specs && specs[name].kind.StringType?
    requires Coerce(value, specs[name], platform) == Success(text) && text != ""
    ensures var spec := specs[name];
      || (spec.pattern.Some? && platform.matches(spec.pattern.value, text) && Strip(spec.pattern.value) !in USELESS_PATTERNS)
      || (spec.choices.Some? && text in spec.choices.value)
  {
    AcceptedSpecs(raw, specs, Ssh, platform, name);
    CoercedTextMatches(value, specs[name], platform, text);
  }

  // ---------------------------------------------------------------- templates

  datatype TemplateError =
    | EmptyTemplate | TooManyTokens | ProgramIsParameter | EmbeddedParameter(token: string)
    | UnknownParameters(names: set<string>) | UnusedParameters(names: set<string>) | ProgramRefused

  /** The parameters among the first `n` tokens. */
  function UsedNames(template: seq<string>, n: nat): set<string>
    requires n <= |template|
  {
    set i | 0 <= i < n && PlaceholderName(template[i]).Some? :: PlaceholderName(template[i]).value
  }

  predicate WholeTokens(template: seq<string>, n: nat)
    requires n <= |template|
  {
    forall i :: 0 <= i < n ==> PlaceholderName(template[i]).Some? || !EmbedsPlaceholder(template[i])
  }

  predicate TemplateAccepted(template: seq<string>, specs: Specs, execution: ExecutionType, platform: Platform) {
    && 1 <= |template| <= MAX_ARGV_TOKENS
    && PlaceholderName(template[0]).None?
    && WholeTokens(template, |template|)
    && UsedNames(template, |template|) == specs.Keys
    && (execution.Local? ==> platform.resolves(template[0]))
  }

  /** What a refusal says. */
  predicate Refuses(e: TemplateError, template: seq<string>, specs: Specs, platform: Platform) {
    match e
    case EmptyTemplate => template == []
    case TooManyTokens => |template| > MAX_ARGV_TOKENS
    case ProgramIsParameter => template != [] && PlaceholderName(template[0]).Some?
    case EmbeddedParameter(token) => token in template && PlaceholderName(token).None? && EmbedsPlaceholder(token)
    case UnknownParameters(names) => names == UsedNames(template, |template|) - specs.Keys && names != {}
    case UnusedParameters(names) => names == specs.Keys - UsedNames(template, |template|) && names != {}
    case ProgramRefused => template != [] && !platform.resolves(template[0])
  }

  lemma UsedOneMore(template: seq<string>, n: nat)
    requires n < |template|
    ensures UsedNames(template, n + 1) == UsedNames(template, n) + match PlaceholderName(template[n]) { case Some(name) => {name} case None => {} }
  {
  }

  /** The loop over the tokens: the parameters used, or the first token that embeds one. */
  method CollectUsed(template: seq<string>) returns (used: set<string>, embedding: Option<string>)
    ensures embedding.None? ==> WholeTokens(template, |template|) && used == UsedNames(template, |template|)
    ensures embedding.Some? ==>
      embedding.value in template && PlaceholderName(embedding.value).None? && EmbedsPlaceholder(embedding.value)
  {
    used, embedding := {}, None;
    for i := 0 to |template|
      invariant used == UsedNames(template, i) && WholeTokens(template, i)
    {
      UsedOneMore(template, i);
      var name := PlaceholderName(template[i]);
      if name.Some? {
        used := used + {name.value};
        continue;
      }
      if EmbedsPlaceholder(template[i]) {
        return used, Some(template[i]);
      }
    }
  }

  /** `validate_template`; None when the template is accepted. */
  method ValidateTemplate(template: seq<string>, specs: Specs, execution: ExecutionType, platform: Platform) returns (r: Option<TemplateError>)
    ensures r.None? <==> TemplateAccepted(template, specs, execution, platform)
    ensures r.Some? ==> Refuses(r.value, template, specs, platform)
  {
    if template == [] {
      return Some(EmptyTemplate);
    }
    if |template| > MAX_ARGV_TOKENS {
      return Some(TooManyTokens);
    }
    if PlaceholderName(template[0]).Some? {
      return Some(ProgramIsParameter);
    }
    var used, embedding := CollectUsed(template);
    if embedding.Some? {
      return Some(EmbeddedParameter(embedding.value));
    }
    var unknown := used - specs.Keys;
    if unknown != {} {
      return Some(UnknownParameters(unknown));
    }
    var unused := specs.Keys - used;
    if unused != {} {
      return Some(UnusedParameters(unused));
    }
    if execution.Local? && !platform.resolves(template[0]) {
      return Some(ProgramRefused);
    }
    return None;
  }

  // ---------------------------------------------------------------- definitions

  datatype Definition = Definition(name: string, execution: string, template: seq<string>, schema: Json, timeoutSeconds: int)

  datatype DefinitionError =
    | NeedsName | NameTooLong | BadExecution | BadTimeout | BadSchema(fault: SchemaError) | BadTemplate(refusal: TemplateError)

  function ExecutionOf(text: string): Option<ExecutionType> {
    if text == "local" then Some(Local) else if text == "ssh" then Some(Ssh) else None
  }

  /** The definition can be stored, and its schema parses to `specs`. */
  predicate Accepted(d: Definition, specs: Specs, platform: Platform) {
    && Strip(d.name) != "" && |d.name| <= 128 && 1 <= d.timeoutSeconds <= MAX_TIMEOUT_SECONDS
    && ExecutionOf(d.execution).Some?
    && SchemaAccepted(d.schema, specs, ExecutionOf(d.execution).value, platform)
    && TemplateAccepted(d.template, specs, ExecutionOf(d.execution).value, platform)
  }

  lemma OneParse(raw: Json, a: Specs, b: Specs, execution: ExecutionType, platform: Platform)
    requires SchemaAccepted(raw, a, execution, platform) && SchemaAccepted(raw, b, execution, platform)
    ensures a == b
  {
    forall n | n in a ensures a[n] == b[n] {
      assert Success(a[n]) == Entries(execution, platform)(n, raw.fields[n]) == Success(b[n]);
    }
  }

  predicate NameFits(d: Definition) {
    Strip(d.name) != "" && |d.name| <= 128
  }

  /** What a refusal says: the first of the checks, in their order, that fails. */
  ghost predicate Faults(e: DefinitionError, d: Definition, platform: Platform) {
    match e
    case NeedsName => Strip(d.name) == ""
    case NameTooLong => Strip(d.name) != "" && |d.name| > 128
    case BadExecution => NameFits(d) && ExecutionOf(d.execution).None?
    case BadTimeout => NameFits(d) && ExecutionOf(d.execution).Some? && !(1 <= d.timeoutSeconds <= MAX_TIMEOUT_SECONDS)
    case BadSchema(fault) =>
      && NameFits(d) && ExecutionOf(d.execution).Some? && 1 <= d.timeoutSeconds <= MAX_TIMEOUT_SECONDS
      && SchemaFaults(fault, d.schema, ExecutionOf(d.execution).value, platform)
    case BadTemplate(refusal) =>
      && NameFits(d) && ExecutionOf(d.execution).Some? && 1 <= d.timeoutSeconds <= MAX_TIMEOUT_SECONDS
      && exists specs :: SchemaAccepted(d.schema, specs, ExecutionOf(d.execution).value, platform) && Refuses(refusal, d.template, specs, platform)
  }

  /** `validate_definition`. */
  method ValidateDefinition(d: Definition, platform: Platform) returns (r: Result<Specs, DefinitionError>)
    ensures r.Success? ==> Accepted(d, r.value, platform)
    ensures r.Failure? ==> Faults(r.error, d, platform) && forall specs :: !Accepted(d, specs, platform)
  {
    if Strip(d.name) == "" {
      return Failure(NeedsName);
    }
    if |d.name| > 128 {
      return Failure(NameTooLong);
    }
    var execution := ExecutionOf(d.execution);
    if execution.None? {
      return Failure(BadExecution);
    }
    if !(1 <= d.timeoutSeconds <= MAX_TIMEOUT_SECONDS) {
      return Failure(BadTimeout);
    }
    var specs := ParseSchema(d.schema, execution.value, platform);
    if specs.Failure? {
      return Failure(BadSchema(specs.error));
    }
    var problem := ValidateTemplate(d.template, specs.value, execution.value, platform);
    if problem.Some? {
      forall other | Accepted(d, other, platform) ensures other == specs.value {
        OneParse(d.schema, other, specs.value, execution.value, platform);
      }
      return Failure(BadTemplate(problem.value));
    }
    return Success(specs.value);
  }
}
