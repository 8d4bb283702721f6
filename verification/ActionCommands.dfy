/**
 * One template compiled three ways: to an argument list, to a command for a remote shell, and to
 * the record of what ran (app/modules/actions/schema.py).
 */
module ActionCommands {
  import opened Wrappers
  import opened Texts
  import opened Shell
  import opened ActionSchema

  const MASK := "[redacted]"

  type Values = map<string, string>

  datatype CommandError = MissingSpec(name: string) | BadValue(name: string, why: ValueError)

  function Lookup(values: Values, name: string): Option<string> {
    if name in values then Some(values[name]) else None
  }

  /** The text of parameter `name`. */
  function ValueText(name: string, spec: ParamSpec, values: Values, platform: Platform): Result<string, CommandError> {
    match Coerce(Lookup(values, name), spec, platform)
    case Success(text) => Success(text)
    case Failure(why) => Failure(BadValue(name, why))
  }

  /** What a template token stands for when the command runs, and when it is recorded. */
  function TokenText(token: string, specs: Specs, values: Values, platform: Platform, masked: bool): Result<string, CommandError> {
    match PlaceholderName(token)
    case None => Success(token)
    case Some(name) =>
      if name !in specs then Failure(MissingSpec(name))
      else if masked && specs[name].secret then Success(MASK)
      else ValueText(name, specs[name], values, platform)
  }

  type TokenReader = string -> Result<string, CommandError>

  function Reader(specs: Specs, values: Values, platform: Platform, masked: bool): TokenReader {
    (token: string) => TokenText(token, specs, values, platform, masked)
  }

  /** The texts of the first `n` tokens; the first failure ends the pass. */
  function TokenTexts(template: seq<string>, n: nat, read: TokenReader): Result<seq<string>, CommandError>
    requires n <= |template|
  {
    if n == 0 then Success([])
    else
      var before :- TokenTexts(template, n - 1, read);
      var text :- read(template[n - 1]);
      Success(before + [text])
  }

  lemma {:induction false} FailureStays(template: seq<string>, n: nat, m: nat, read: TokenReader)
    requires n <= m <= |template| && TokenTexts(template, n, read).Failure?
    ensures TokenTexts(template, m, read) == TokenTexts(template, n, read)
  {
    if n < m {
      FailureStays(template, n, m - 1, read);
    }
  }

  function Argv(template: seq<string>, specs: Specs, values: Values, platform: Platform): Result<seq<string>, CommandError> {
    TokenTexts(template, |template|, Reader(specs, values, platform, false))
  }

  function Command(template: seq<string>, specs: Specs, values: Values, platform: Platform): Result<string, CommandError> {
    var argv :- Argv(template, specs, values, platform);
    Success(Join(QuoteAll(argv), " "))
  }

  function Preview(template: seq<string>, specs: Specs, values: Values, platform: Platform, quote: bool): Result<string, CommandError> {
    var shown :- TokenTexts(template, |template|, Reader(specs, values, platform, true));
    Success(Join(Spelled(shown, quote), " "))
  }

  function Spelled(words: seq<string>, quote: bool): seq<string> {
    if quote then QuoteAll(words) else words
  }

  lemma SpellOneMore(words: seq<string>, word: string, quote: bool)
    ensures Spelled(words + [word], quote) == Spelled(words, quote) + [if quote then Quote(word) else word]
  {
    assert (words + [word])[..|words|] == words;
  }

  /** The loop of `build_argv`: token by token, until one is refused. */
  method ReadAll(template: seq<string>, read: TokenReader) returns (r: Result<seq<string>, CommandError>)
    ensures r == TokenTexts(template, |template|, read)
  {
    var argv: seq<string> := [];
    for i := 0 to |template|
      invariant TokenTexts(template, i, read) == Success(argv)
    {
      var text := read(template[i]);
      if text.Failure? {
        FailureStays(template, i + 1, |template|, read);
        return Failure(text.error);
      }
      argv := argv + [text.value];
    }
    return Success(argv);
  }

  /** The loop of `build_ssh_command` and `build_preview`. */
  method SpellAll(template: seq<string>, read: TokenReader, quote: bool) returns (r: Result<string, CommandError>)
    ensures r == match TokenTexts(template, |template|, read) {
      case Success(words) => Success(Join(Spelled(words, quote), " "))
      case Failure(e) => Failure(e)
    }
  {
    var parts: seq<string> := [];
    ghost var words: seq<string> := [];
    for i := 0 to |template|
      invariant TokenTexts(template, i, read) == Success(words) && parts == Spelled(words, quote)
    {
      var text := read(template[i]);
      if text.Failure? {
        FailureStays(template, i + 1, |template|, read);
        return Failure(text.error);
      }
      SpellOneMore(words, text.value, quote);
      words := words + [text.value];
      parts := parts + [if quote then Quote(text.value) else text.value];
    }
    return Success(Join(parts, " "));
  }

  /** `build_argv`. */
  method BuildArgv(template: seq<string>, specs: Specs, values: Values, platform: Platform) returns (r: Result<seq<string>, CommandError>)
    ensures r == Argv(template, specs, values, platform)
  {
    r := ReadAll(template, Reader(specs, values, platform, false));
  }

  /** `build_ssh_command`. */
  method BuildSshCommand(template: seq<string>, specs: Specs, values: Values, platform: Platform) returns (r: Result<string, CommandError>)
    ensures r == Command(template, specs, values, platform)
  {
    r := SpellAll(template, Reader(specs, values, platform, false), true);
  }

  /** A token of a preview; the value is looked up by the name its schema entry holds. */
  function ShownText(token: string, specs: Specs, values: Values, platform: Platform): Result<string, CommandError> {
    match PlaceholderName(token)
    case None => Success(token)
    case Some(name) =>
      if name !in specs then Failure(MissingSpec(name))
      else if specs[name].secret then Success(MASK)
      else ValueText(specs[name].name, specs[name], values, platform)
  }

  function Shower(specs: Specs, values: Values, platform: Platform): TokenReader {
    (token: string) => ShownText(token, specs, values, platform)
  }

  /** `build_preview`. */
  method BuildPreview(template: seq<string>, specs: Specs, values: Values, platform: Platform, quote: bool) returns (r: Result<string, CommandError>)
    requires forall name :: name in specs ==> specs[name].name == name
    ensures r == Preview(template, specs, values, platform, quote)
  {
    r := SpellAll(template, Shower(specs, values, platform), quote);
    SameReadersSameTexts(template, |template|, Shower(specs, values, platform), Reader(specs, values, platform, true));
  }

  // ---------------------------------------------------------------- tokens stay in place

  lemma {:induction false} TextsAt(template: seq<string>, n: nat, read: TokenReader)
    requires n <= |template|
    ensures TokenTexts(template, n, read).Success? <==> forall i :: 0 <= i < n ==> read(template[i]).Success?
    ensures TokenTexts(template, n, read).Success? ==>
      |TokenTexts(template, n, read).value| == n
      && forall i :: 0 <= i < n ==> read(template[i]) == Success(TokenTexts(template, n, read).value[i])
  {
    if n > 0 {
      TextsAt(template, n - 1, read);
    }
  }

  /** The error is that of the first token that has one. */
  lemma {:induction false} FirstFailure(template: seq<string>, n: nat, read: TokenReader)
    requires n <= |template| && TokenTexts(template, n, read).Failure?
    ensures exists i :: 0 <= i < n && read(template[i]) == Failure(TokenTexts(template, n, read).error) && forall j :: 0 <= j < i ==> read(template[j]).Success?
  {
    if TokenTexts(template, n - 1, read).Failure? {
      FirstFailure(template, n - 1, read);
    } else {
      TextsAt(template, n - 1, read);
      assert read(template[n - 1]) == Failure(TokenTexts(template, n, read).error);
    }
  }

  lemma UsedAreDefined(template: seq<string>, specs: Specs)
    requires UsedNames(template, |template|) == specs.Keys
    ensures forall i :: 0 <= i < |template| && PlaceholderName(template[i]).Some? ==> PlaceholderName(template[i]).value in specs
  {
    forall i | 0 <= i < |template| && PlaceholderName(template[i]).Some? ensures PlaceholderName(template[i]).value in specs {
      assert PlaceholderName(template[i]).value in UsedNames(template, |template|);
    }
  }

  /** A fixed token stays; a parameter becomes its validated value. */
  predicate TokenInPlace(token: string, word: string, specs: Specs, values: Values, platform: Platform) {
    match PlaceholderName(token)
    case None => word == token
    case Some(name) => name in specs && Coerce(Lookup(values, name), specs[name], platform) == Success(word)
  }

  lemma ReadInPlace(token: string, word: string, specs: Specs, values: Values, platform: Platform)
    ensures Reader(specs, values, platform, false)(token) == Success(word) <==> TokenInPlace(token, word, specs, values, platform)
  {
  }

  /** A parameter with a schema entry fails only for its value. */
  lemma ReadFails(token: string, specs: Specs, values: Values, platform: Platform)
    requires PlaceholderName(token).Some? ==> PlaceholderName(token).value in specs
    ensures match Reader(specs, values, platform, false)(token) {
      case Success(_) => true
      case Failure(e) => IsBadValue(e, specs, values, platform)
    }
  {
  }

  predicate IsBadValue(e: CommandError, specs: Specs, values: Values, platform: Platform) {
    e.BadValue? && e.name in specs && Coerce(Lookup(values, e.name), specs[e.name], platform) == Failure(e.why)
  }

  /**
   * One token in, one token out, for every definition that could be stored: fixed tokens where
   * they were, each parameter one validated token, and no parameter without its schema entry.
   */
  lemma ArgvFollowsTemplate(d: Definition, specs: Specs, values: Values, platform: Platform)
    requires Accepted(d, specs, platform)
    ensures var argv := Argv(d.template, specs, values, platform);
      match argv {
        case Failure(e) => IsBadValue(e, specs, values, platform)
        case Success(words) =>
          && |words| == |d.template| && words[0] == d.template[0]
          && forall i :: 0 <= i < |words| ==> TokenInPlace(d.template[i], words[i], specs, values, platform)
      }
  {
    var read := Reader(specs, values, platform, false);
    var n := |d.template|;
    TextsAt(d.template, n, read);
    var argv := TokenTexts(d.template, n, read);
    if argv.Failure? {
      FirstFailure(d.template, n, read);
      var i :| 0 <= i < n && read(d.template[i]) == Failure(argv.error);
      UsedAreDefined(d.template, specs);
      ReadFails(d.template[i], specs, values, platform);
    } else {
      forall i | 0 <= i < n ensures TokenInPlace(d.template[i], argv.value[i], specs, values, platform) {
        ReadInPlace(d.template[i], argv.value[i], specs, values, platform);
      }
      ReadInPlace(d.template[0], argv.value[0], specs, values, platform);
    }
  }

  // ---------------------------------------------------------------- local and remote mean the same

  lemma CoercedHasNoNul(value: Option<string>, spec: ParamSpec, platform: Platform)
    requires Coerce(value, spec, platform).Success?
    ensures NUL !in Coerce(value, spec, platform).value
  {
    CoerceMeansFits(value, spec, platform, Coerce(value, spec, platform).value);
  }

  lemma TokenHoldable(token: string, word: string, specs: Specs, values: Values, platform: Platform)
    requires TokenInPlace(token, word, specs, values, platform)
    ensures NUL in word <==> NUL in token
  {
    match PlaceholderName(token) {
      case None =>
      case Some(name) => CoercedHasNoNul(Lookup(values, name), specs[name], platform);
    }
  }

  /** The arguments hold a NUL only when a fixed token does. */
  lemma ArgvHoldable(template: seq<string>, specs: Specs, values: Values, platform: Platform)
    requires Argv(template, specs, values, platform).Success?
    ensures Holdable(Argv(template, specs, values, platform).value) <==> Holdable(template)
  {
    var read := Reader(specs, values, platform, false);
    TextsAt(template, |template|, read);
    var argv := TokenTexts(template, |template|, read).value;
    forall i | 0 <= i < |template| ensures NUL in argv[i] <==> NUL in template[i] {
      ReadInPlace(template[i], argv[i], specs, values, platform);
      TokenHoldable(template[i], argv[i], specs, values, platform);
    }
  }

  /**
   * A POSIX shell splits the remote command into exactly the local argument list, or both are
   * refused alike. A fixed token that holds a NUL is the one exception.
   */
  lemma RemoteMeansLocal(template: seq<string>, specs: Specs, values: Values, platform: Platform)
    ensures var argv, command := Argv(template, specs, values, platform), Command(template, specs, values, platform);
      match argv {
        case Failure(e) => command == Failure(e)
        case Success(words) => command.Success? && SplitWords(command.value) == if Holdable(template) then Some(words) else None
      }
  {
    var argv := Argv(template, specs, values, platform);
    if argv.Success? {
      ArgvHoldable(template, specs, values, platform);
      SplitUndoesQuoting(argv.value);
    }
  }

  /** A token without a brace is fixed. */
  lemma FixedToken(token: string, specs: Specs, values: Values, platform: Platform)
    requires '{' !in token
    ensures PlaceholderName(token).None? && !EmbedsPlaceholder(token)
    ensures Reader(specs, values, platform, false)(token) == Success(token)
  {
  }

  lemma FixedTemplate(template: seq<string>, specs: Specs, values: Values, platform: Platform)
    requires forall i :: 0 <= i < |template| ==> '{' !in template[i]
    ensures WholeTokens(template, |template|) && UsedNames(template, |template|) == {}
    ensures Argv(template, specs, values, platform) == Success(template)
  {
    var read := Reader(specs, values, platform, false);
    forall i | 0 <= i < |template|
      ensures PlaceholderName(template[i]).None? && !EmbedsPlaceholder(template[i]) && read(template[i]) == Success(template[i])
    {
      FixedToken(template[i], specs, values, platform);
    }
    TextsAt(template, |template|, read);
    assert TokenTexts(template, |template|, read).value == template;
  }

  /** A definition that can be stored for SSH and whose command no shell can split into its arguments. */
  lemma NulTokenExample(platform: Platform) returns (d: Definition)
    ensures Accepted(d, map[], platform) && Argv(d.template, map[], map[], platform) == Success(d.template)
    ensures match Command(d.template, map[], map[], platform) {
      case Success(command) => SplitWords(command) == None
      case Failure(_) => false
    }
  {
    d := Definition("nul", "ssh", ["echo", [NUL]], Object(map[]), 30);
    FixedTemplate(d.template, map[], map[], platform);
    assert !Holdable(d.template) by {
      assert NUL in d.template[1];
    }
    RemoteMeansLocal(d.template, map[], map[], platform);
  }

  // ---------------------------------------------------------------- previews

  /** The two maps agree on every parameter that is not secret. */
  predicate AgreeWhereShown(specs: Specs, a: Values, b: Values) {
    forall name :: name in specs && !specs[name].secret ==> Lookup(a, name) == Lookup(b, name)
  }

  lemma {:induction false} SameReadersSameTexts(template: seq<string>, n: nat, read: TokenReader, other: TokenReader)
    requires n <= |template|
    requires forall i :: 0 <= i < n ==> read(template[i]) == other(template[i])
    ensures TokenTexts(template, n, read) == TokenTexts(template, n, other)
  {
    if n > 0 {
      SameReadersSameTexts(template, n - 1, read, other);
    }
  }

  /** What is stored and shown does not depend on secret values. */
  lemma PreviewHidesSecrets(template: seq<string>, specs: Specs, a: Values, b: Values, platform: Platform, quote: bool)
    requires AgreeWhereShown(specs, a, b)
    ensures Preview(template, specs, a, platform, quote) == Preview(template, specs, b, platform, quote)
  {
    SameReadersSameTexts(template, |template|, Reader(specs, a, platform, true), Reader(specs, b, platform, true));
  }

  /** The arguments with the secret ones masked. */
  function Masked(template: seq<string>, specs: Specs, argv: seq<string>): (r: seq<string>)
    requires |argv| == |template|
    ensures |r| == |template|
  {
    seq(|template|, i requires 0 <= i < |template| =>
      match PlaceholderName(template[i])
      case Some(name) => if name in specs && specs[name].secret then MASK else argv[i]
      case None => argv[i])
  }

  /** A secret argument is shown as a mark, any other as it is. */
  predicate ShownAs(token: string, argument: string, shown: string, specs: Specs) {
    match PlaceholderName(token)
    case None => shown == argument
    case Some(name) => shown == if name in specs && specs[name].secret then "[redacted]" else argument
  }

  /** Whenever a command can be built, its preview is that command with each secret masked. */
  lemma PreviewIsTheMaskedCommand(template: seq<string>, specs: Specs, values: Values, platform: Platform, quote: bool)
    requires Argv(template, specs, values, platform).Success?
    ensures var argv := Argv(template, specs, values, platform).value;
      |argv| == |template|
      && Preview(template, specs, values, platform, quote)
        == Success(Join(Spelled(Masked(template, specs, argv), quote), " "))
      && forall i :: 0 <= i < |argv| ==> ShownAs(template[i], argv[i], Masked(template, specs, argv)[i], specs)
  {
    var read, shown := Reader(specs, values, platform, false), Reader(specs, values, platform, true);
    var argv := Argv(template, specs, values, platform).value;
    TextsAt(template, |template|, read);
    var masked := Masked(template, specs, argv);
    forall i | 0 <= i < |template| ensures shown(template[i]) == Success(masked[i]) {
      assert read(template[i]) == Success(argv[i]);
    }
    TextsAt(template, |template|, shown);
    assert TokenTexts(template, |template|, shown).value == masked;
  }

  /** With no secret parameter the preview is exactly the command. */
  lemma PreviewIsFaithful(template: seq<string>, specs: Specs, values: Values, platform: Platform)
    requires forall name :: name in specs ==> !specs[name].secret
    ensures Preview(template, specs, values, platform, true) == Command(template, specs, values, platform)
    ensures Preview(template, specs, values, platform, false) == match Argv(template, specs, values, platform) {
      case Success(argv) => Success(Join(argv, " "))
      case Failure(e) => Failure(e)
    }
  {
    SameReadersSameTexts(template, |template|, Reader(specs, values, platform, false), Reader(specs, values, platform, true));
  }

  /** `redact`. */
  function Redact(values: Values, specs: Specs): Values {
    map name | name in values :: if name in specs && specs[name].secret then MASK else values[name]
  }

  /**
   * Each secret is stored as a mark and every other value as it is; stored values agree exactly when
   * the submitted ones agree outside the secrets.
   */
  lemma RedactHidesSecrets(specs: Specs, a: Values, b: Values)
    ensures Redact(a, specs).Keys == a.Keys
    ensures forall name :: name in a ==> Redact(a, specs)[name] == if name in specs && specs[name].secret then "[redacted]" else a[name]
    ensures Redact(a, specs) == Redact(b, specs) <==>
      a.Keys == b.Keys && forall name :: name in a && name in b && !(name in specs && specs[name].secret) ==> a[name] == b[name]
  {
    if Redact(a, specs) == Redact(b, specs) {
      assert Redact(a, specs).Keys == a.Keys && Redact(b, specs).Keys == b.Keys;
      forall name | name in a && name in b && !(name in specs && specs[name].secret) ensures a[name] == b[name] {
        assert Redact(a, specs)[name] == a[name] && Redact(b, specs)[name] == b[name];
      }
    }
  }
}
