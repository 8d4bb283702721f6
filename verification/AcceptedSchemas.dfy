/**
 * What a stored parameter definition means, key by key, and which submitted texts a parameter takes
 * (app/modules/actions/schema.py).
 */
module AcceptedSchemas {
  import opened Wrappers
  import opened Texts
  import opened Shell
  import opened ActionSchema

  type Fields = map<string, Json>

  /** The key is missing, or null. */
  predicate Lacks(fields: Fields, key: string) {
    key !in fields || fields[key] == Null
  }

  predicate Empty(j: Json) {
    j == Null || j == Bool(false) || j == Int(0) || j == Real(0.0) || j == Text("") || j == List([]) || j == Object(map[])
  }

  /** A missing type is "string"; a null one is no type. */
  predicate TypeIs(fields: Fields, kind: ParamType) {
    || (kind == StringType && ("type" !in fields || fields["type"] == Text("string")))
    || (kind == IntegerType && "type" in fields && fields["type"] == Text("integer"))
    || (kind == ChoiceType && "type" in fields && fields["type"] == Text("choice"))
  }

  /** Patterns that are as good as none. */
  const MATCH_ANYTHING := {"", ".*", ".+", "^$", "^.*$", "^.+$", "(.*)", "^(.*)$"}

  predicate PatternIs(fields: Fields, pattern: Option<string>, platform: Platform) {
    match pattern
    case None => Lacks(fields, "pattern")
    case Some(p) => "pattern" in fields && fields["pattern"] == Text(p) && Strip(p) !in MATCH_ANYTHING && platform.compiles(p)
  }

  predicate ChoicesAre(fields: Fields, choices: Option<seq<string>>) {
    match choices
    case None => Lacks(fields, "choices")
    case Some(texts) =>
      && "choices" in fields && fields["choices"].List? && texts != [] && |fields["choices"].items| == |texts|
      && forall i :: 0 <= i < |texts| ==> fields["choices"].items[i] == Text(texts[i])
  }

  /** A bound is a whole number, a truth value, a text that spells one, or a fraction cut toward zero. */
  predicate BoundIs(fields: Fields, key: string, bound: Option<int>, platform: Platform) {
    match bound
    case None => Lacks(fields, key)
    case Some(n) =>
      key in fields
      && match fields[key] {
        case Int(i) => n == i
        case Bool(b) => n == if b then 1 else 0
        case Real(r) => if r >= 0.0 then n as real <= r < n as real + 1.0 else n as real - 1.0 < r <= n as real
        case Text(s) => ReadInt(s, platform) == Some(n)
        case _ => false
      }
  }

  /** A letter, or one of the four others that case folding takes for one. */
  predicate Letter(c: char) {
    'A' <= c <= 'Z' || 'a' <= c <= 'z' || c as int in {0x130, 0x131, 0x17F, 0x212A}
  }

  /** One to thirty-two letters, digits and underscores, a letter first. */
  predicate NameText(s: string) {
    1 <= |s| <= 32 && Letter(s[0]) && forall i :: 0 <= i < |s| ==> Letter(s[i]) || '0' <= s[i] <= '9' || s[i] == '_'
  }

  lemma NameIff(s: string)
    ensures IsName(s) && |s| <= 32 <==> NameText(s)
  {
  }

  lemma WithoutNewline(name: string)
    requires NameText(name)
    ensures BeforeFinalNewline(name) == name && BeforeFinalNewline(name + "\n") == name
  {
    var last := name[|name| - 1];
    assert last != '\n';
    assert (name + "\n")[..|name|] == name;
  }

  lemma NewlineBack(s: string)
    ensures s == BeforeFinalNewline(s) || s == BeforeFinalNewline(s) + "\n"
  {
  }

  /** A newline may follow. */
  lemma ParamNameIff(s: string)
    ensures IsParamName(s) <==> exists name :: NameText(name) && (s == name || s == name + "\n")
  {
    NameIff(BeforeFinalNewline(s));
    NewlineBack(s);
    forall name | NameText(name) && (s == name || s == name + "\n") ensures BeforeFinalNewline(s) == name {
      WithoutNewline(name);
    }
  }

  /** SSH reads a text parameter through a shell, so it wants a pattern or choices. */
  predicate SshRule(execution: ExecutionType, fields: Fields, spec: ParamSpec) {
    execution == Ssh && spec.kind == StringType ==> spec.pattern.Some? || spec.choices.Some?
  }

  predicate Spells(name: string, fields: Fields, execution: ExecutionType, platform: Platform, spec: ParamSpec) {
    && spec.name == name && IsParamName(name)
    && TypeIs(fields, spec.kind) && PatternIs(fields, spec.pattern, platform) && ChoicesAre(fields, spec.choices)
    && BoundIs(fields, "min", spec.minimum, platform) && BoundIs(fields, "max", spec.maximum, platform)
    && (spec.required <==> "required" !in fields || !Empty(fields["required"]))
    && (spec.secret <==> "secret" in fields && !Empty(fields["secret"]))
    && SshRule(execution, fields, spec)
  }

  lemma EmptyIff(j: Json)
    ensures Empty(j) <==> !Truthy(j)
  {
    if j.Object? && |j.fields| == 0 {
      assert j.fields == map[];
    }
  }

  lemma TypeIff(fields: Fields, kind: ParamType)
    ensures ReadType(Get(fields, "type", Text("string"))) == Success(kind) <==> TypeIs(fields, kind)
  {
  }

  lemma PatternIff(fields: Fields, pattern: Option<string>, platform: Platform)
    ensures ReadPattern(Get(fields, "pattern", Null), platform) == Success(pattern) <==> PatternIs(fields, pattern, platform)
  {
  }

  lemma ChoicesIff(fields: Fields, choices: Option<seq<string>>)
    ensures ReadChoices(Get(fields, "choices", Null)) == Success(choices) <==> ChoicesAre(fields, choices)
  {
    var j := Get(fields, "choices", Null);
    if ChoicesAre(fields, choices) && choices.Some? {
      assert forall i :: 0 <= i < |j.items| ==> j.items[i] == Text(choices.value[i]);
      assert ReadChoices(j).value.value == choices.value;
    }
  }

  lemma BoundIff(fields: Fields, key: string, bound: Option<int>, platform: Platform)
    ensures OptionalInt(Get(fields, key, Null), platform) == Success(bound) <==> BoundIs(fields, key, bound, platform)
  {
  }

  /** An entry parses to a parameter exactly when it spells it. */
  lemma EntryParsesIff(name: string, definition: Json, execution: ExecutionType, platform: Platform, spec: ParamSpec)
    ensures ParseEntry(name, definition, execution, platform) == Success(spec)
      <==> definition.Object? && Spells(name, definition.fields, execution, platform, spec)
  {
    if definition.Object? {
      var fields := definition.fields;
      TypeIff(fields, spec.kind);
      PatternIff(fields, spec.pattern, platform);
      ChoicesIff(fields, spec.choices);
      BoundIff(fields, "min", spec.minimum, platform);
      BoundIff(fields, "max", spec.maximum, platform);
      EmptyIff(Get(fields, "required", Bool(true)));
      EmptyIff(Get(fields, "secret", Bool(false)));
    }
  }

  /** The parameters of a schema are those its entries spell. */
  lemma SchemaSpells(raw: Json, specs: Specs, execution: ExecutionType, platform: Platform)
    ensures SchemaAccepted(raw, specs, execution, platform) <==>
      raw.Object? && |raw.fields| <= 10 && specs.Keys == raw.fields.Keys
      && forall name :: name in specs ==> raw.fields[name].Object? && Spells(name, raw.fields[name].fields, execution, platform, specs[name])
  {
    if raw.Object? && specs.Keys == raw.fields.Keys {
      forall name | name in specs
        ensures Entries(execution, platform)(name, raw.fields[name]) == Success(specs[name])
          <==> raw.fields[name].Object? && Spells(name, raw.fields[name].fields, execution, platform, specs[name])
      {
        EntryParsesIff(name, raw.fields[name], execution, platform, specs[name]);
      }
    }
  }

  /** The bounds in the numbers' own order. */
  predicate InBounds(n: int, spec: ParamSpec) {
    (spec.minimum.Some? ==> spec.minimum.value <= n) && (spec.maximum.Some? ==> n <= spec.maximum.value)
  }

  /** A submitted text and what it is taken as. */
  ghost predicate TakenAs(submitted: Option<string>, spec: ParamSpec, platform: Platform, text: string) {
    if submitted == None || submitted == Some("") then
      !spec.required && text == ""
    else
      && |submitted.value| <= 256 && '\0' !in submitted.value
      && (spec.kind == IntegerType ==> exists n :: ReadInt(submitted.value, platform) == Some(n) && InBounds(n, spec) && text == PrintInt(n))
      && (spec.kind != IntegerType ==>
            && text == submitted.value
            && (spec.choices.Some? ==> text in spec.choices.value)
            && (spec.pattern.Some? ==> platform.matches(spec.pattern.value, text)))
  }

  /** A value is taken as a text exactly so: a number in its usual spelling, any other text as it is. */
  lemma CoerceIff(submitted: Option<string>, spec: ParamSpec, platform: Platform, text: string)
    ensures Coerce(submitted, spec, platform) == Success(text) <==> TakenAs(submitted, spec, platform, text)
  {
  }

  /** Why a value is refused: the first of the checks, in their order, that fails. */
  predicate RefusedAs(submitted: Option<string>, spec: ParamSpec, platform: Platform, e: ValueError) {
    if submitted == None || submitted == Some("") then
      spec.required && e == Required
    else if |submitted.value| > 256 then
      e == TooLong
    else if '\0' in submitted.value then
      e == HoldsNul
    else if spec.kind == IntegerType then
      match ReadInt(submitted.value, platform)
      case None => e == NotWholeNumber
      case Some(n) =>
        || (e == TooSmall && spec.minimum.Some? && n < spec.minimum.value)
        || (e == TooLarge && spec.maximum.Some? && n > spec.maximum.value && (spec.minimum.Some? ==> n >= spec.minimum.value))
    else
      || (e == NotAChoice && spec.choices.Some? && submitted.value !in spec.choices.value)
      || (e == DoesNotMatch && spec.pattern.Some? && !platform.matches(spec.pattern.value, submitted.value)
          && (spec.choices.Some? ==> submitted.value in spec.choices.value))
  }

  lemma CoerceRefusesIff(submitted: Option<string>, spec: ParamSpec, platform: Platform, e: ValueError)
    ensures Coerce(submitted, spec, platform) == Failure(e) <==> RefusedAs(submitted, spec, platform, e)
  {
  }

  // ---------------------------------------------------------------- templates and definitions

  /** A token embeds a placeholder when it is some text around a name in braces. */
  lemma EmbedsIff(token: string)
    ensures EmbedsPlaceholder(token) <==> exists a: string, name: string, b: string :: token == a + "{" + name + "}" + b && IsName(name)
  {
    if i, j :| 0 <= i < |token| && 0 <= j < |token| && PlaceholderAt(token, i, j) {
      var a, name, b := token[..i], token[i + 1..j], token[j + 1..];
      assert token == a + "{" + name + "}" + b;
    }
    if a: string, name: string, b: string :| token == a + "{" + name + "}" + b && IsName(name) {
      assert token[|a| + 1..|a| + 1 + |name|] == name;
      assert PlaceholderAt(token, |a|, |a| + 1 + |name|);
    }
  }

  /** The tokens name exactly these parameters. */
  ghost predicate NamesExactly(template: seq<string>, names: set<string>) {
    forall name :: name in names <==> exists token :: token in template && PlaceholderName(token) == Some(name)
  }

  lemma NamesExactlyIff(template: seq<string>, names: set<string>)
    ensures UsedNames(template, |template|) == names <==> NamesExactly(template, names)
  {
    var used := UsedNames(template, |template|);
    forall name ensures name in used <==> exists token :: token in template && PlaceholderName(token) == Some(name) {
      if token :| token in template && PlaceholderName(token) == Some(name) {
        var i :| 0 <= i < |template| && template[i] == token;
      }
    }
  }

  /**
   * A template is accepted when its program is no parameter, its parameters are whole tokens and
   * exactly those of the schema, and a local program can be found.
   */
  ghost predicate GoodTemplate(template: seq<string>, specs: Specs, execution: ExecutionType, platform: Platform) {
    && 1 <= |template| <= 32 && PlaceholderName(template[0]) == None
    && (forall token :: token in template ==> PlaceholderName(token).Some? || !EmbedsPlaceholder(token))
    && NamesExactly(template, specs.Keys)
    && (execution == Local ==> platform.resolves(template[0]))
  }

  lemma TemplateAcceptedIff(template: seq<string>, specs: Specs, execution: ExecutionType, platform: Platform)
    ensures TemplateAccepted(template, specs, execution, platform) <==> GoodTemplate(template, specs, execution, platform)
  {
    NamesExactlyIff(template, specs.Keys);
    assert forall i :: 0 <= i < |template| ==> template[i] in template;
  }

  predicate RunsAs(text: string, execution: ExecutionType) {
    (text == "local" && execution == Local) || (text == "ssh" && execution == Ssh)
  }

  /** A definition is accepted when it is named, bounded in time, and its schema and template are accepted. */
  lemma DefinitionAcceptedIff(d: Definition, specs: Specs, platform: Platform)
    ensures Accepted(d, specs, platform) <==>
      && Strip(d.name) != "" && |d.name| <= 128 && 1 <= d.timeoutSeconds <= 300
      && exists execution :: RunsAs(d.execution, execution)
           && SchemaAccepted(d.schema, specs, execution, platform) && GoodTemplate(d.template, specs, execution, platform)
  {
    forall execution | RunsAs(d.execution, execution) ensures ExecutionOf(d.execution) == Some(execution) {
    }
    if ExecutionOf(d.execution).Some? {
      assert RunsAs(d.execution, ExecutionOf(d.execution).value);
      TemplateAcceptedIff(d.template, specs, ExecutionOf(d.execution).value, platform);
    }
  }
}
