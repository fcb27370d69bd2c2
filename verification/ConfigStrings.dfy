/**
 * The value of an option with its variables unfolded (String in common/config/type.go): first
 * the variables of the file, then those of the environment.
 */
module ConfigStrings {
  import opened Basics
  import opened ConfigListing
  import opened ConfigVars

  /** NoOption: neither the section nor the default one has it. */
  datatype Unfolded = NoOption | Ended(outcome: Outcome)

  function FileVariables(l: Listing, section: string): Lookup {
    name => Raw(l, section, name)
  }

  /** An environment variable that is not set reads as empty. */
  function EnvironmentVariables(environ: map<string, string>): Lookup {
    name => Some(if name in environ then environ[name] else "")
  }

  function StringOf(l: Listing, section: string, option: string, environ: map<string, string>): Unfolded {
    match Raw(l, section, option)
    case None => NoOption
    case Some(raw) =>
      var first := Unfold(raw, FileVariables(l, section), FILE_VARIABLE, DEPTH);
      match first
      case Value(text) =>
        Ended(Unfold(text, EnvironmentVariables(environ), ENVIRONMENT_VARIABLE, DEPTH))
      case _ => Ended(first)
  }

  // ---------------------------------------------------------------- the variables as tokens

  function NamesIn(l: Listing, section: string): set<string> {
    if section in l.options then set e | e in l.options[section] :: e.option else {}
  }

  /** The options a reference in `section` can name; any other is not there. */
  function FileEnv(l: Listing, section: string): Env {
    Env(map n | n in NamesIn(l, section) + NamesIn(l, DEFAULT_SECTION) && Raw(l, section, n).Some? ::
          Tokenize(Raw(l, section, n).value, FILE_VARIABLE),
        false)
  }

  /** The environment; a name that is not set reads as empty. */
  function EnvironmentEnv(environ: map<string, string>): Env {
    Env(map n | n in environ :: Tokenize(environ[n], ENVIRONMENT_VARIABLE), true)
  }

  lemma {:induction false} FoundIsNamed(es: seq<Entry>, n: string)
    requires Find(es, n).Some?
    ensures exists e :: e in es && e.option == n
  {
    if es[|es| - 1].option != n { FoundIsNamed(es[..|es| - 1], n); }
  }

  lemma RawIsNamed(l: Listing, section: string, n: string)
    requires Raw(l, section, n).Some?
    ensures n in NamesIn(l, section) + NamesIn(l, DEFAULT_SECTION)
  {
    if section in l.options && Find(l.options[section], n).Some? {
      FoundIsNamed(l.options[section], n);
    } else {
      FoundIsNamed(l.options[DEFAULT_SECTION], n);
    }
  }

  lemma FileAnswers(l: Listing, section: string)
    ensures Answers(FileVariables(l, section), FileEnv(l, section), FILE_VARIABLE) && EnvNamed(FileEnv(l, section))
  {
    hide Tokenize, Raw, NamesIn, Named;
    BothSyntaxesUsable();
    forall n ensures n in FileEnv(l, section).values <==> Raw(l, section, n).Some? {
      if Raw(l, section, n).Some? { RawIsNamed(l, section, n); }
    }
    forall n | n in FileEnv(l, section).values
      ensures Render(FileEnv(l, section).values[n], FILE_VARIABLE) == Raw(l, section, n).value
      ensures Named(FileEnv(l, section).values[n])
    {
      TokenizeRenders(Raw(l, section, n).value, FILE_VARIABLE);
    }
  }

  lemma EnvironmentAnswers(environ: map<string, string>)
    ensures Answers(EnvironmentVariables(environ), EnvironmentEnv(environ), ENVIRONMENT_VARIABLE)
    ensures EnvNamed(EnvironmentEnv(environ))
  {
    hide Tokenize, Named;
    BothSyntaxesUsable();
    forall n | n in environ
      ensures Render(EnvironmentEnv(environ).values[n], ENVIRONMENT_VARIABLE) == environ[n]
      ensures Named(EnvironmentEnv(environ).values[n])
    {
      TokenizeRenders(environ[n], ENVIRONMENT_VARIABLE);
    }
  }

  // ---------------------------------------------------------------- what String yields

  /** Where the pass over the file's variables stops, no literal text has begun a variable. */
  ghost predicate FileClear(l: Listing, section: string, text: string) {
    Clear(Stop(Tokenize(text, FILE_VARIABLE), FileEnv(l, section), DEPTH), FILE_VARIABLE)
  }

  ghost predicate EnvironmentClear(environ: map<string, string>, text: string) {
    Clear(Stop(Tokenize(text, ENVIRONMENT_VARIABLE), EnvironmentEnv(environ), DEPTH), ENVIRONMENT_VARIABLE)
  }

  function FileOutcome(l: Listing, section: string, raw: string): Outcome {
    OutcomeOf(raw, FileEnv(l, section), FILE_VARIABLE)
  }

  function EnvironmentOutcome(environ: map<string, string>, text: string): Outcome {
    OutcomeOf(text, EnvironmentEnv(environ), ENVIRONMENT_VARIABLE)
  }

  lemma FirstPass(l: Listing, section: string, raw: string)
    ensures var source, r := Unfold(raw, FileVariables(l, section), FILE_VARIABLE, DEPTH), FileOutcome(l, section, raw);
      && (r.Value? ==> (source == r <==> NoVariable(r.text, FILE_VARIABLE)))
      && (FileClear(l, section, raw) ==> source == r)
  {
    hide Unfold, OutcomeOf, Clear, Stop, Tokenize, Usable, NoVariable, EnvNamed, Answers, FileEnv, EnvironmentEnv;
    FileAnswers(l, section);
    BothSyntaxesUsable();
    UnfoldsToMeaning(raw, FileEnv(l, section), FileVariables(l, section), FILE_VARIABLE);
  }

  lemma SecondPass(environ: map<string, string>, text: string)
    ensures var source, r :=
        Unfold(text, EnvironmentVariables(environ), ENVIRONMENT_VARIABLE, DEPTH), EnvironmentOutcome(environ, text);
      && (r.Value? ==> (source == r <==> NoVariable(r.text, ENVIRONMENT_VARIABLE)))
      && (EnvironmentClear(environ, text) ==> source == r)
  {
    hide Unfold, OutcomeOf, Clear, Stop, Tokenize, Usable, NoVariable, EnvNamed, Answers, FileEnv, EnvironmentEnv;
    EnvironmentAnswers(environ);
    BothSyntaxesUsable();
    UnfoldsToMeaning(text, EnvironmentEnv(environ), EnvironmentVariables(environ), ENVIRONMENT_VARIABLE);
  }

  /** The value by its meaning: of its references to options, then of those to the environment. */
  function MeaningOfString(l: Listing, section: string, option: string, environ: map<string, string>): Unfolded {
    match Raw(l, section, option)
    case None => NoOption
    case Some(raw) =>
      var first := FileOutcome(l, section, raw);
      match first
      case Value(text) => Ended(EnvironmentOutcome(environ, text))
      case _ => Ended(first)
  }

  /**
   * String is the meaning of the option's value: both passes replace every reference by the full
   * expansion of its value, or end as the first reference without one demands.
   */
  lemma StringIsMeaning(l: Listing, section: string, option: string, environ: map<string, string>)
    requires Raw(l, section, option).Some? ==> FileClear(l, section, Raw(l, section, option).value)
    requires Raw(l, section, option).Some? ==>
      var first := FileOutcome(l, section, Raw(l, section, option).value);
      first.Value? ==> EnvironmentClear(environ, first.text)
    ensures StringOf(l, section, option, environ) == MeaningOfString(l, section, option, environ)
  {
    hide Unfold, FileOutcome, EnvironmentOutcome, FileClear, EnvironmentClear, Raw, NoVariable;
    match Raw(l, section, option)
    case None =>
    case Some(raw) =>
      FirstPass(l, section, raw);
      match FileOutcome(l, section, raw)
      case Value(text) => SecondPass(environ, text);
      case _ =>
  }

  /**
   * When the value has a full expansion, and that one in the environment, the passes of String
   * come to exactly these if and only if neither has a variable in it, made of literal text.
   */
  lemma StringExpandsExactly(l: Listing, section: string, option: string, environ: map<string, string>, text: string, value: string)
    requires Raw(l, section, option).Some?
    requires FileOutcome(l, section, Raw(l, section, option).value) == Value(text)
    requires EnvironmentOutcome(environ, text) == Value(value)
    ensures (&& Unfold(Raw(l, section, option).value, FileVariables(l, section), FILE_VARIABLE, DEPTH) == Value(text)
             && StringOf(l, section, option, environ) == Ended(Value(value)))
      <==> NoVariable(text, FILE_VARIABLE) && NoVariable(value, ENVIRONMENT_VARIABLE)
  {
    hide Unfold, FileOutcome, EnvironmentOutcome, FileClear, EnvironmentClear, Raw, NoVariable;
    FirstPass(l, section, Raw(l, section, option).value);
    SecondPass(environ, text);
  }

  // ---------------------------------------------------------------- when String crashes

  /** A callback that answers every name never crashes, as the environment's. */
  lemma {:induction false} NeverCrashes(s: string, withVar: Lookup, syn: Syntax, fuel: nat)
    requires forall n :: withVar(n).Some?
    ensures !Unfold(s, withVar, syn, fuel).Crash?
    decreases fuel
  {
    hide MatchAt, Leftmost, Replace;
    if fuel > 0 {
      var k := Leftmost(s, 0, syn);
      if k < |s| {
        var value := withVar(MatchAt(s, k, syn).value).value;
        if value != "" { NeverCrashes(Replace(s, k, syn, value), withVar, syn, fuel - 1); }
      }
    }
  }

  /**
   * String dereferences nil exactly when the option is there and the first of its references
   * without a usable value names no option, at most 199 replacements coming before it.
   */
  lemma CrashesExactly(l: Listing, section: string, option: string, environ: map<string, string>, n: string)
    requires Raw(l, section, option).Some? ==> FileClear(l, section, Raw(l, section, option).value)
    ensures StringOf(l, section, option, environ) == Ended(Crash(n))
      <==> (&& Raw(l, section, option).Some?
            && var m := MeaningOf(Tokenize(Raw(l, section, option).value, FILE_VARIABLE), FileEnv(l, section));
               m.Bad? && m.name == n && m.cost <= 199 && Raw(l, section, n) == None)
  {
    hide Unfold, FileClear, MeaningOf, Tokenize, Render, FileVariables, EnvironmentVariables, NoVariable;
    match Raw(l, section, option)
    case None =>
    case Some(raw) =>
      FirstPass(l, section, raw);
      KnownExactly(l, section, n);
      match OutcomeOf(raw, FileEnv(l, section), FILE_VARIABLE)
      case Value(text) => EnvironmentNeverCrashes(text, environ);
      case _ =>
  }

  lemma KnownExactly(l: Listing, section: string, n: string)
    ensures FileEnv(l, section).Undefined(n) <==> Raw(l, section, n) == None
  {
    hide Tokenize;
    if Raw(l, section, n).Some? { RawIsNamed(l, section, n); }
  }

  lemma EnvironmentNeverCrashes(text: string, environ: map<string, string>)
    ensures !Unfold(text, EnvironmentVariables(environ), ENVIRONMENT_VARIABLE, DEPTH).Crash?
  {
    NeverCrashes(text, EnvironmentVariables(environ), ENVIRONMENT_VARIABLE, DEPTH);
  }

  /** A value that is one variable crashes when nothing has its name. */
  lemma LoneVariableCrashes(l: Listing, section: string, option: string, environ: map<string, string>, n: string)
    requires IsName(n) && Raw(l, section, option) == Some("%(" + n + ")s") && Raw(l, section, n) == None
    ensures StringOf(l, section, option, environ) == Ended(Crash(n))
  {
    hide Unfold, MatchAt, Raw, IsName;
    var s := "%(" + n + ")s";
    MatchRef("", n, "", "", FILE_VARIABLE);
    assert "" + "%(" + n + ")s" + "" == s;
    UnfoldStep(s, FileVariables(l, section), FILE_VARIABLE, DEPTH);
  }

  /** Such as the file `a = %(b)s` when option `a` is asked for. */
  lemma CrashExample()
    ensures StringOf(Listing([DEFAULT_SECTION], map[DEFAULT_SECTION := [Entry("a", "%(b)s")]]), DEFAULT_SECTION, "a", map[])
      == Ended(Crash("b"))
  {
    hide StringOf;
    var l := Listing([DEFAULT_SECTION], map[DEFAULT_SECTION := [Entry("a", "%(b)s")]]);
    assert Find([Entry("a", "%(b)s")], "a") == Some("%(b)s");
    assert Find([Entry("a", "%(b)s")], "b") == None by { assert Find([], "b") == None; }
    assert "%(b)s" == "%(" + "b" + ")s";
    LoneVariableCrashes(l, DEFAULT_SECTION, "a", map[], "b");
  }

  // ---------------------------------------------------------------- why literal text matters

  /** Options a and b, of which a ends a variable that other text may begin. */
  function JoinedEnv(): Env {
    Env(map["a" := Tokenize("(b)s", FILE_VARIABLE), "b" := [Lit('x')]], false)
  }

  function JoinedLookup(): Lookup {
    n => if n == "a" then Some("(b)s") else if n == "b" then Some("x") else None
  }

  /** Told by its references `%%(a)s` stands for `%(b)s`, which is a variable again. */
  lemma JoinedTextMeans()
    ensures OutcomeOf("%%(a)s", JoinedEnv(), FILE_VARIABLE) == Value("%(b)s")
  {
    JoinedTokens();
    JoinedValueTokens();
    var ts := [Lit('%'), Ref("a")];
    var value := [Lit('('), Lit('b'), Lit(')'), Lit('s')];
    var env := JoinedEnv();
    hide Tokenize, Render, MatchAt;
    LiteralMeans(value, env, env.values.Keys - {"a"});
    assert Mean([], env, env.values.Keys) == All([], 0);
    assert ts[1..][1..] == [];
    assert Mean(ts[1..], env, env.values.Keys) == All(value, 1);
    assert Mean(ts, env, env.values.Keys) == All([Lit('%')] + value, 1);
    RenderLiterals([Lit('%')] + value, FILE_VARIABLE);
    assert Render([Lit('%')] + value, FILE_VARIABLE) == "%(b)s";
  }

  lemma {:induction false} LiteralMeans(ts: Tokens, env: Env, open: set<string>)
    requires AllLiteral(ts)
    ensures Mean(ts, env, open) == All(ts, 0)
  {
    if ts != [] {
      LiteralMeans(ts[1..], env, open);
      assert [ts[0]] + ts[1..] == ts;
    }
  }

  lemma TokenizeRef(n: string, rest: string)
    requires IsName(n)
    ensures Tokenize("%(" + n + ")s" + rest, FILE_VARIABLE) == [Ref(n)] + Tokenize(rest, FILE_VARIABLE)
  {
    hide MatchAt, IsName;
    BothSyntaxesUsable();
    MatchRef("", n, rest, "", FILE_VARIABLE);
    var s := "%(" + n + ")s" + rest;
    assert "" + "%(" + n + ")s" + rest == s;
    assert s[2 + |n| + 2..] == rest;
  }

  lemma TokenizeLiteral(c: char, rest: string)
    requires rest == "" || c != '%' || rest[0] != '('
    ensures Tokenize([c] + rest, FILE_VARIABLE) == [Lit(c)] + Tokenize(rest, FILE_VARIABLE)
  {
    hide MatchAt;
    BothSyntaxesUsable();
    NoPairNoMatch([c] + rest, 0, FILE_VARIABLE);
    assert ([c] + rest)[1..] == rest;
  }

  lemma JoinedTextParts()
    ensures "%(" + "a" + ")s" + "" == "%(a)s" && ['%'] + "%(a)s" == "%%(a)s"
  {
  }

  lemma JoinedTokens()
    ensures Tokenize("%%(a)s", FILE_VARIABLE) == [Lit('%'), Ref("a")]
  {
    assert Tokenize("", FILE_VARIABLE) == [];
    hide Tokenize;
    JoinedTextParts();
    TokenizeRef("a", "");
    TokenizeLiteral('%', "%(a)s");
  }

  lemma JoinedValueTokens()
    ensures Tokenize("(b)s", FILE_VARIABLE) == [Lit('('), Lit('b'), Lit(')'), Lit('s')]
  {
    hide MatchAt;
    NoPairNoMatch("(b)s", 0, FILE_VARIABLE);
    NoPairNoMatch("b)s", 0, FILE_VARIABLE);
    NoPairNoMatch(")s", 0, FILE_VARIABLE);
    NoPairNoMatch("s", 0, FILE_VARIABLE);
    assert "(b)s"[1..] == "b)s" && "b)s"[1..] == ")s" && ")s"[1..] == "s" && "s"[1..] == "";
  }

  /** So the source unfolds it once more, and the condition on literal text cannot be dropped. */
  lemma LiteralTextMatters()
    ensures Answers(JoinedLookup(), JoinedEnv(), FILE_VARIABLE)
    ensures OutcomeOf("%%(a)s", JoinedEnv(), FILE_VARIABLE) == Value("%(b)s")
    ensures Unfold("%%(a)s", JoinedLookup(), FILE_VARIABLE, DEPTH) != Value("%(b)s")
  {
    hide Unfold, OutcomeOf, Tokenize, MatchAt;
    BothSyntaxesUsable();
    JoinedTextMeans();
    TokenizeRenders("(b)s", FILE_VARIABLE);
    RenderLiterals([Lit('x')], FILE_VARIABLE);
    assert Render([Lit('x')], FILE_VARIABLE) == "x";
    MatchRef("", "b", "", "", FILE_VARIABLE);
    assert "" + "%(" + "b" + ")s" + "" == "%(b)s";
    UnfoldsToMeaning("%%(a)s", JoinedEnv(), JoinedLookup(), FILE_VARIABLE);
  }

  // ---------------------------------------------------------------- an error that agrees all the same

  function MissingEnv(): Env {
    Env(map["a" := Tokenize("(b)s", FILE_VARIABLE)], false)
  }

  function MissingLookup(): Lookup {
    n => if n == "a" then Some("(b)s") else None
  }

  lemma MissingTextCrashes()
    ensures Unfold("%%(a)s%(b)s", MissingLookup(), FILE_VARIABLE, DEPTH) == Crash("b")
  {
    hide Unfold, MatchAt, Replace, Leftmost;
    MatchRef("%", "a", "%(b)s", "(b)s", FILE_VARIABLE);
    assert "%" + "%(" + "a" + ")s" + "%(b)s" == "%%(a)s%(b)s" && "%" + "(b)s" + "%(b)s" == "%(b)s%(b)s";
    NoPairNoMatch("%%(a)s%(b)s", 0, FILE_VARIABLE);
    LeftmostIs("%%(a)s%(b)s", 1, FILE_VARIABLE);
    UnfoldStep("%%(a)s%(b)s", MissingLookup(), FILE_VARIABLE, DEPTH);
    MatchRef("", "b", "%(b)s", "", FILE_VARIABLE);
    assert "" + "%(" + "b" + ")s" + "%(b)s" == "%(b)s%(b)s";
    LeftmostIs("%(b)s%(b)s", 0, FILE_VARIABLE);
    UnfoldStep("%(b)s%(b)s", MissingLookup(), FILE_VARIABLE, DEPTH - 1);
  }

  lemma LeftmostIs(s: string, k: nat, syn: Syntax)
    requires k < |s| && (forall j :: 0 <= j < k ==> MatchAt(s, j, syn).None?) && MatchAt(s, k, syn).Some?
    ensures Leftmost(s, 0, syn) == k
  {
  }

  lemma MissingTextParts()
    ensures "%(" + "b" + ")s" + "" == "%(b)s"
    ensures "%(" + "a" + ")s" + "%(b)s" == "%(a)s%(b)s"
    ensures ['%'] + "%(a)s%(b)s" == "%%(a)s%(b)s"
  {
  }

  lemma MissingTokens()
    ensures Tokenize("%%(a)s%(b)s", FILE_VARIABLE) == [Lit('%'), Ref("a"), Ref("b")]
  {
    assert Tokenize("", FILE_VARIABLE) == [];
    hide Tokenize;
    MissingTextParts();
    assert [Ref("b")] + [] == [Ref("b")] && [Ref("a")] + [Ref("b")] == [Ref("a"), Ref("b")];
    TokenizeRef("b", "");
    TokenizeRef("a", "%(b)s");
    TokenizeLiteral('%', "%(a)s%(b)s");
  }

  lemma MissingStops()
    ensures Stop([Lit('%'), Ref("a"), Ref("b")], MissingEnv(), DEPTH) == [Lit('%'), Lit('('), Lit('b'), Lit(')'), Lit('s'), Ref("b")]
    ensures Rewrite([Lit('%'), Ref("a"), Ref("b")], MissingEnv(), DEPTH) == Undefined("b")
  {
    hide Tokenize;
    JoinedValueTokens();
    var ts, us := [Lit('%'), Ref("a"), Ref("b")], [Lit('%'), Lit('('), Lit('b'), Lit(')'), Lit('s'), Ref("b")];
    FirstRefAfter([Lit('%')], [Ref("a"), Ref("b")]);
    assert [Lit('%')] + [Ref("a"), Ref("b")] == ts;
    assert Substitute(ts, 1, MissingEnv()) == us;
    FirstRefAfter(us[..5], [Ref("b")]);
    assert us[..5] + [Ref("b")] == us;
  }

  lemma MissingIsNotClear()
    ensures !Clear([Lit('%'), Lit('('), Lit('b'), Lit(')'), Lit('s'), Ref("b")], FILE_VARIABLE)
  {
    hide MatchAt, Render, FirstRef;
    BothSyntaxesUsable();
    var us := [Lit('%'), Lit('('), Lit('b'), Lit(')'), Lit('s'), Ref("b")];
    FirstRefAfter(us[..5], [Ref("b")]);
    RenderConcat(us[..5], [Ref("b")], FILE_VARIABLE);
    RenderLiterals(us[..5], FILE_VARIABLE);
    assert us[..5] + [Ref("b")] == us;
    RenderSingle("b", FILE_VARIABLE);
    assert Render(us[..5], FILE_VARIABLE) == "%(b)s";
    MatchRef("", "b", "%(b)s", "", FILE_VARIABLE);
    assert "" + "%(" + "b" + ")s" + "%(b)s" == Render(us, FILE_VARIABLE);
    assert MatchAt(Render(us, FILE_VARIABLE), 0, FILE_VARIABLE).Some?;
  }

  /** For an error the condition is not necessary: literal text begins a variable, and all ends as it should. */
  lemma ErrorAgreesAnyway()
    ensures Answers(MissingLookup(), MissingEnv(), FILE_VARIABLE)
    ensures !Clear(Stop(Tokenize("%%(a)s%(b)s", FILE_VARIABLE), MissingEnv(), DEPTH), FILE_VARIABLE)
    ensures Unfold("%%(a)s%(b)s", MissingLookup(), FILE_VARIABLE, DEPTH) == OutcomeOf("%%(a)s%(b)s", MissingEnv(), FILE_VARIABLE)
  {
    hide Unfold, Tokenize, Mean, Rewrite, Stop, Clear;
    BothSyntaxesUsable();
    TokenizeRenders("(b)s", FILE_VARIABLE);
    MissingTextCrashes();
    MissingTokens();
    MissingStops();
    MissingIsNotClear();
    RewriteMeans([Lit('%'), Ref("a"), Ref("b")], MissingEnv(), DEPTH);
  }
}
