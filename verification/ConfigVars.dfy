/** Unfolding of variables inside values (common/config/type.go). */
module ConfigVars {
  import opened Basics

  // ---------------------------------------------------------------- matching on strings

  predicate NameChar(c: char) {
    'a' <= c <= 'z' || 'A' <= c <= 'Z' || '0' <= c <= '9' || c == '_' || c == '.' || c == '-'
  }

  predicate IsName(s: string) {
    s != "" && forall i :: 0 <= i < |s| ==> NameChar(s[i])
  }

  /** The brackets around a variable: `%(`name`)s` in files, `${`name`}` for the environment. */
  datatype Syntax = Syntax(open: string, close: string)

  const FILE_VARIABLE := Syntax("%(", ")s")
  const ENVIRONMENT_VARIABLE := Syntax("${", "}")

  predicate StartsAt(s: string, i: nat, t: string) {
    i + |t| <= |s| && s[i..i + |t|] == t
  }

  /** Where the run of name characters from `i` ends. */
  function NameEnd(s: string, i: nat): (e: nat)
    requires i <= |s|
    ensures i <= e <= |s|
    ensures forall j :: i <= j < e ==> NameChar(s[j])
    ensures e < |s| ==> !NameChar(s[e])
    decreases |s| - i
  {
    if i < |s| && NameChar(s[i]) then NameEnd(s, i + 1) else i
  }

  /** The name matched by the regular expression at `i`; none when it does not match there. */
  function MatchAt(s: string, i: nat, syn: Syntax): Option<string> {
    if !StartsAt(s, i, syn.open) then None
    else
      var from := i + |syn.open|;
      var to := NameEnd(s, from);
      if from < to && StartsAt(s, to, syn.close) then Some(s[from..to]) else None
  }

  /** The leftmost match from `i` on, or the length of the text. */
  function Leftmost(s: string, i: nat, syn: Syntax): (k: nat)
    requires i <= |s|
    ensures i <= k <= |s|
    ensures forall j :: i <= j < k ==> MatchAt(s, j, syn).None?
    ensures k < |s| ==> MatchAt(s, k, syn).Some?
    decreases |s| - i
  {
    if i == |s| || MatchAt(s, i, syn).Some? then i else Leftmost(s, i + 1, syn)
  }

  // ---------------------------------------------------------------- unfolding strings

  const DEPTH := 200

  /** How unfolding can end; looking up an option that is not defined is a nil dereference. */
  datatype Outcome = Value(text: string) | NotFound(name: string) | Cycle | Crash(name: string)

  /** The callback that gives a variable its value; None where it dereferences nil. */
  type Lookup = string -> Option<string>

  /** The text after replacing the variable matched at `k`. */
  function Replace(s: string, k: nat, syn: Syntax, value: string): string
    requires k <= |s| && MatchAt(s, k, syn).Some?
  {
    s[..k] + value + s[k + |syn.open| + |MatchAt(s, k, syn).value| + |syn.close|..]
  }

  /** Replace the leftmost variable, at most `fuel` times. */
  function Unfold(s: string, withVar: Lookup, syn: Syntax, fuel: nat): Outcome
    decreases fuel
  {
    if fuel == 0 then Cycle
    else
      var k := Leftmost(s, 0, syn);
      if k == |s| then Value(s)
      else
        var name := MatchAt(s, k, syn).value;
        match withVar(name)
        case None => Crash(name)
        case Some(value) =>
          if value == "" then NotFound(name)
          else Unfold(Replace(s, k, syn, value), withVar, syn, fuel - 1)
  }

  lemma UnfoldStep(s: string, withVar: Lookup, syn: Syntax, fuel: nat)
    ensures fuel == 0 ==> Unfold(s, withVar, syn, fuel) == Cycle
    ensures fuel > 0 ==>
      var k := Leftmost(s, 0, syn);
      if k == |s| then Unfold(s, withVar, syn, fuel) == Value(s)
      else
        var name := MatchAt(s, k, syn).value;
        Unfold(s, withVar, syn, fuel) ==
          match withVar(name)
          case None => Crash(name)
          case Some(value) =>
            if value == "" then NotFound(name)
            else Unfold(Replace(s, k, syn, value), withVar, syn, fuel - 1)
  {
  }

  /** The loop of `computeVar`. */
  method ComputeVar(beforeValue: string, syn: Syntax, withVar: Lookup) returns (r: Outcome)
    ensures r == Unfold(beforeValue, withVar, syn, DEPTH)
  {
    hide Unfold;
    var computedVal := beforeValue;
    var i := 0;
    while i < DEPTH
      invariant i <= DEPTH
      invariant Unfold(beforeValue, withVar, syn, DEPTH) == Unfold(computedVal, withVar, syn, DEPTH - i)
    {
      UnfoldStep(computedVal, withVar, syn, DEPTH - i);
      var k := Leftmost(computedVal, 0, syn);
      if k == |computedVal| {
        return Value(computedVal);
      }
      var name := MatchAt(computedVal, k, syn).value;
      var value := withVar(name);
      if value.None? {
        return Crash(name);
      }
      if value.value == "" {
        return NotFound(name);
      }
      computedVal := Replace(computedVal, k, syn, value.value);
      i := i + 1;
    }
    UnfoldStep(computedVal, withVar, syn, 0);
    return Cycle;
  }

  /** Unfolding depends only on what the callback answers. */
  lemma {:induction false} UnfoldSame(s: string, f: Lookup, g: Lookup, syn: Syntax, fuel: nat)
    requires forall n :: f(n) == g(n)
    ensures Unfold(s, f, syn, fuel) == Unfold(s, g, syn, fuel)
    decreases fuel
  {
    hide MatchAt, Leftmost, Replace;
    if fuel > 0 {
      var k := Leftmost(s, 0, syn);
      if k < |s| {
        var value := f(MatchAt(s, k, syn).value);
        if value.Some? && value.value != "" {
          UnfoldSame(Replace(s, k, syn, value.value), f, g, syn, fuel - 1);
        }
      }
    }
  }

  // ---------------------------------------------------------------- values as literals and references

  datatype Token = Lit(c: char) | Ref(name: string)

  type Tokens = seq<Token>

  /**
   * The values of variables. Any other name is not set: it reads as empty, as the environment
   * does when `total`, or else is not there at all.
   */
  datatype Env = Env(values: map<string, Tokens>, total: bool) {
    predicate Good(n: string) { n in values && values[n] != [] }
    predicate Undefined(n: string) { n !in values && !total }
  }

  datatype TokenOutcome = Done(tokens: Tokens) | Missing(name: string) | TooDeep | Undefined(name: string)

  function FirstRef(ts: Tokens): (k: nat)
    ensures k <= |ts|
    ensures forall j :: 0 <= j < k ==> ts[j].Lit?
    ensures k < |ts| ==> ts[k].Ref?
  {
    if ts == [] || ts[0].Ref? then 0 else 1 + FirstRef(ts[1..])
  }

  /** The reference at `k` replaced by its value. */
  function Substitute(ts: Tokens, k: nat, env: Env): Tokens
    requires k < |ts| && ts[k].Ref? && env.Good(ts[k].name)
  {
    ts[..k] + env.values[ts[k].name] + ts[k + 1..]
  }

  /** How unfolding ends at a reference without a usable value. */
  function Failure(n: string, env: Env): TokenOutcome {
    if env.Undefined(n) then Undefined(n) else Missing(n)
  }

  /** Unfolding on tokens, leftmost reference first. */
  function Rewrite(ts: Tokens, env: Env, fuel: nat): TokenOutcome
    decreases fuel
  {
    if fuel == 0 then TooDeep
    else
      var k := FirstRef(ts);
      if k == |ts| then Done(ts)
      else if !env.Good(ts[k].name) then Failure(ts[k].name, env)
      else Rewrite(Substitute(ts, k, env), env, fuel - 1)
  }

  // ---------------------------------------------------------------- what a value means

  /**
   * All: the full expansion, each reference replaced by the expansion of its value, and how many
   * replacements that takes. Bad: the first reference that has no usable value, and how many
   * replacements come before it. Endless: a reference met again inside its own value.
   */
  datatype Meaning = All(tokens: Tokens, cost: nat) | Bad(name: string, cost: nat) | Endless(name: string)

  /** One part after another. */
  function Then(first: Meaning, rest: Meaning): Meaning {
    match first
    case All(x, c) =>
      (match rest
       case All(y, d) => All(x + y, c + d)
       case Bad(n, d) => Bad(n, c + d)
       case Endless(n) => rest)
    case _ => first
  }

  /** The replacement of the reference itself counts too. */
  function Counted(m: Meaning): Meaning {
    match m
    case All(x, c) => All(x, c + 1)
    case Bad(n, c) => Bad(n, c + 1)
    case Endless(_) => m
  }

  /** The meaning inside the values of the names that are no longer `open`. */
  function Mean(ts: Tokens, env: Env, open: set<string>): Meaning
    decreases |open|, |ts|
  {
    if ts == [] then All([], 0)
    else
      var first :=
        match ts[0]
        case Lit(_) => All([ts[0]], 0)
        case Ref(n) =>
          if !env.Good(n) then Bad(n, 0)
          else if n !in open then Endless(n)
          else Counted(Mean(env.values[n], env, open - {n}));
      Then(first, Mean(ts[1..], env, open))
  }

  function MeaningOf(ts: Tokens, env: Env): Meaning {
    Mean(ts, env, env.values.Keys)
  }

  /** How unfolding with a budget ends, told from the meaning. */
  function Verdict(m: Meaning, env: Env, fuel: nat): TokenOutcome {
    match m
    case All(x, c) => if c < fuel then Done(x) else TooDeep
    case Bad(n, c) => if c < fuel then Failure(n, env) else TooDeep
    case Endless(_) => TooDeep
  }

  // ---------------------------------------------------------------- replacing step by step

  ghost predicate AllLiteral(ts: Tokens) {
    forall i :: 0 <= i < |ts| ==> ts[i].Lit?
  }

  /** Replacing the leftmost reference `c` times leads from `ts` to `us`. */
  ghost predicate Goes(ts: Tokens, us: Tokens, env: Env, c: nat)
    decreases c
  {
    if c == 0 then ts == us
    else
      var k := FirstRef(ts);
      k < |ts| && env.Good(ts[k].name) && Goes(Substitute(ts, k, env), us, env, c - 1)
  }

  /** The next reference to be replaced is to `n`. */
  ghost predicate Heads(us: Tokens, n: string) {
    FirstRef(us) < |us| && us[FirstRef(us)] == Ref(n)
  }

  ghost predicate Reaches(ts: Tokens, n: string, env: Env, c: nat) {
    exists us :: Goes(ts, us, env, c) && Heads(us, n)
  }

  /** Replacing never comes to an end. */
  ghost predicate Diverges(ts: Tokens, env: Env) {
    forall c: nat :: GoesOn(ts, env, c)
  }

  ghost predicate GoesOn(ts: Tokens, env: Env, c: nat) {
    exists us :: Goes(ts, us, env, c)
  }

  lemma {:induction false} GoesThen(a: Tokens, b: Tokens, c: Tokens, env: Env, m: nat, n: nat)
    requires Goes(a, b, env, m) && Goes(b, c, env, n)
    ensures Goes(a, c, env, m + n)
    decreases m
  {
    if m > 0 { GoesThen(Substitute(a, FirstRef(a), env), b, c, env, m - 1, n); }
  }

  lemma {:induction false} FirstRefAfter(lits: Tokens, ts: Tokens)
    requires AllLiteral(lits)
    ensures FirstRef(lits + ts) == |lits| + FirstRef(ts)
  {
    if lits == [] {
      assert lits + ts == ts;
    } else {
      FirstRefAfter(lits[1..], ts);
      assert (lits + ts)[1..] == lits[1..] + ts;
    }
  }

  lemma {:induction false} FirstRefBefore(ts: Tokens, tail: Tokens)
    requires FirstRef(ts) < |ts|
    ensures FirstRef(ts + tail) == FirstRef(ts)
  {
    if ts[0].Lit? {
      FirstRefBefore(ts[1..], tail);
      assert (ts + tail)[1..] == ts[1..] + tail;
    }
  }

  /** Literals before and anything after make no difference to replacing. */
  lemma {:induction false} GoesAround(lits: Tokens, ts: Tokens, tail: Tokens, us: Tokens, env: Env, c: nat)
    requires AllLiteral(lits) && Goes(ts, us, env, c)
    ensures Goes(lits + ts + tail, lits + us + tail, env, c)
    decreases c
  {
    hide FirstRef, Substitute;
    if c > 0 {
      var k := FirstRef(ts);
      FirstRefAround(lits, ts, tail);
      PutAround(lits, ts, tail, k, env);
      GoesAround(lits, Substitute(ts, k, env), tail, us, env, c - 1);
    }
  }

  lemma FirstRefAround(lits: Tokens, ts: Tokens, tail: Tokens)
    requires AllLiteral(lits) && FirstRef(ts) < |ts|
    ensures FirstRef(lits + ts + tail) == |lits| + FirstRef(ts)
  {
    hide FirstRef;
    FirstRefBefore(ts, tail);
    FirstRefAfter(lits, ts + tail);
    assert lits + ts + tail == lits + (ts + tail);
  }

  lemma PutAround(lits: Tokens, ts: Tokens, tail: Tokens, k: nat, env: Env)
    requires k < |ts| && ts[k].Ref? && env.Good(ts[k].name)
    ensures var all := lits + ts + tail;
      all[|lits| + k] == ts[k] && Substitute(all, |lits| + k, env) == lits + Substitute(ts, k, env) + tail
  {
    var all := lits + ts + tail;
    var value := env.values[ts[k].name];
    assert all[..|lits| + k] == lits + ts[..k];
    assert all[|lits| + k + 1..] == ts[k + 1..] + tail;
    assert lits + ts[..k] + value + (ts[k + 1..] + tail) == lits + (ts[..k] + value + ts[k + 1..]) + tail;
  }

  lemma HeadsAround(lits: Tokens, us: Tokens, tail: Tokens, n: string)
    requires AllLiteral(lits) && Heads(us, n)
    ensures Heads(lits + us + tail, n)
  {
    FirstRefAround(lits, us, tail);
  }

  /** So each step uses up one unit of the budget. */
  lemma {:induction false} GoesRewrites(ts: Tokens, us: Tokens, env: Env, c: nat, fuel: nat)
    requires Goes(ts, us, env, c)
    ensures Rewrite(ts, env, fuel) == if c <= fuel then Rewrite(us, env, fuel - c) else TooDeep
    decreases c
  {
    hide Substitute;
    if c > 0 && fuel > 0 { GoesRewrites(Substitute(ts, FirstRef(ts), env), us, env, c - 1, fuel - 1); }
  }

  lemma {:induction false} GoesPart(ts: Tokens, us: Tokens, env: Env, c: nat, d: nat)
    requires Goes(ts, us, env, c) && d <= c
    ensures GoesOn(ts, env, d)
    decreases d
  {
    if d == 0 {
      assert Goes(ts, ts, env, 0);
    } else {
      var next := Substitute(ts, FirstRef(ts), env);
      GoesPart(next, us, env, c - 1, d - 1);
      var vs :| Goes(next, vs, env, d - 1);
      assert Goes(ts, vs, env, d);
    }
  }

  lemma {:induction false} ReachesAround(lits: Tokens, ts: Tokens, tail: Tokens, n: string, env: Env, c: nat)
    requires AllLiteral(lits) && Reaches(ts, n, env, c)
    ensures Reaches(lits + ts + tail, n, env, c)
  {
    var us :| Goes(ts, us, env, c) && Heads(us, n);
    GoesAround(lits, ts, tail, us, env, c);
    HeadsAround(lits, us, tail, n);
  }

  lemma DivergesAround(lits: Tokens, ts: Tokens, tail: Tokens, env: Env)
    requires AllLiteral(lits) && Diverges(ts, env)
    ensures Diverges(lits + ts + tail, env)
  {
    forall c: nat ensures GoesOn(lits + ts + tail, env, c) {
      assert GoesOn(ts, env, c);
      var us :| Goes(ts, us, env, c);
      GoesAround(lits, ts, tail, us, env, c);
    }
  }

  lemma ReachesAfter(ts: Tokens, us: Tokens, n: string, env: Env, c: nat, d: nat)
    requires Goes(ts, us, env, c) && Reaches(us, n, env, d)
    ensures Reaches(ts, n, env, c + d)
  {
    var vs :| Goes(us, vs, env, d) && Heads(vs, n);
    GoesThen(ts, us, vs, env, c, d);
  }

  lemma DivergesAfter(ts: Tokens, us: Tokens, env: Env, c: nat)
    requires Goes(ts, us, env, c) && Diverges(us, env)
    ensures Diverges(ts, env)
  {
    forall d: nat ensures GoesOn(ts, env, d) {
      if d <= c {
        GoesPart(ts, us, env, c, d);
      } else {
        assert GoesOn(us, env, d - c);
        var vs :| Goes(us, vs, env, d - c);
        GoesThen(ts, us, vs, env, c, d - c);
      }
    }
  }

  /** A reference that leads to itself again is replaced for ever. */
  lemma {:induction false} LoopGoesOn(n: string, env: Env, c: nat, d: nat)
    requires Reaches([Ref(n)], n, env, c) && c > 0
    ensures GoesOn([Ref(n)], env, d)
    decreases d
  {
    var us :| Goes([Ref(n)], us, env, c) && Heads(us, n);
    if d <= c {
      GoesPart([Ref(n)], us, env, c, d);
    } else {
      LoopGoesOn(n, env, c, d - c);
      var vs :| Goes([Ref(n)], vs, env, d - c);
      var k := FirstRef(us);
      assert us == us[..k] + [Ref(n)] + us[k + 1..];
      GoesAround(us[..k], [Ref(n)], us[k + 1..], vs, env, d - c);
      GoesThen([Ref(n)], us, us[..k] + vs + us[k + 1..], env, c, d - c);
    }
  }

  // ---------------------------------------------------------------- the meaning is what replacing finds

  ghost predicate Means(ts: Tokens, env: Env, open: set<string>, m: Meaning) {
    match m
    case All(x, c) => AllLiteral(x) && Goes(ts, x, env, c)
    case Bad(n, c) => !env.Good(n) && Reaches(ts, n, env, c)
    case Endless(n) => n in env.values && if n in open then Diverges(ts, env) else exists c: nat :: Reaches(ts, n, env, c)
  }

  lemma MeansThen(a: Tokens, b: Tokens, env: Env, open: set<string>, m: Meaning, n: Meaning)
    requires Means(a, env, open, m) && Means(b, env, open, n)
    ensures Means(a + b, env, open, Then(m, n))
  {
    hide Goes, Reaches, Diverges;
    assert [] + a + b == a + b;
    match m
    case All(x, c) =>
      GoesAround([], a, b, x, env, c);
      assert [] + x + b == x + b;
      MeansRest(a + b, x, b, env, open, c, n);
    case Bad(name, c) => ReachesAround([], a, b, name, env, c);
    case Endless(name) =>
      if name in open {
        DivergesAround([], a, b, env);
      } else {
        var c: nat :| Reaches(a, name, env, c);
        ReachesAround([], a, b, name, env, c);
      }
  }

  /** Once the first part is all literal, the rest decides. */
  lemma MeansRest(ts: Tokens, x: Tokens, b: Tokens, env: Env, open: set<string>, c: nat, n: Meaning)
    requires AllLiteral(x) && Goes(ts, x + b, env, c) && Means(b, env, open, n)
    ensures Means(ts, env, open, Then(All(x, c), n))
  {
    hide Goes, Reaches, Diverges;
    assert x + b + [] == x + b;
    match n
    case All(y, d) =>
      GoesAround(x, b, [], y, env, d);
      assert x + y + [] == x + y;
      GoesThen(ts, x + b, x + y, env, c, d);
    case Bad(name, d) =>
      ReachesAround(x, b, [], name, env, d);
      ReachesAfter(ts, x + b, name, env, c, d);
    case Endless(name) =>
      if name in open {
        DivergesAround(x, b, [], env);
        DivergesAfter(ts, x + b, env, c);
      } else {
        var d: nat :| Reaches(b, name, env, d);
        ReachesAround(x, b, [], name, env, d);
        ReachesAfter(ts, x + b, name, env, c, d);
      }
  }

  lemma OneStep(n: string, env: Env)
    requires env.Good(n)
    ensures Goes([Ref(n)], env.values[n], env, 1)
  {
    assert Substitute([Ref(n)], 0, env) == env.values[n];
    assert Goes(env.values[n], env.values[n], env, 0);
  }

  lemma MeansCounted(n: string, env: Env, open: set<string>, m: Meaning)
    requires env.Good(n) && n in open && Means(env.values[n], env, open - {n}, m)
    ensures Means([Ref(n)], env, open, Counted(m))
  {
    hide Goes, Reaches, Diverges;
    OneStep(n, env);
    match m
    case All(x, c) => GoesThen([Ref(n)], env.values[n], x, env, 1, c);
    case Bad(name, c) => ReachesAfter([Ref(n)], env.values[n], name, env, 1, c);
    case Endless(name) =>
      if name in open - {n} {
        DivergesAfter([Ref(n)], env.values[n], env, 1);
      } else {
        var c: nat :| Reaches(env.values[n], name, env, c);
        ReachesAfter([Ref(n)], env.values[n], name, env, 1, c);
        if name == n { LoopDiverges(n, env, 1 + c); }
      }
  }

  lemma LoopDiverges(n: string, env: Env, c: nat)
    requires Reaches([Ref(n)], n, env, c) && c > 0
    ensures Diverges([Ref(n)], env)
  {
    forall d: nat ensures GoesOn([Ref(n)], env, d) { LoopGoesOn(n, env, c, d); }
  }

  lemma MeansOne(t: Token, env: Env, open: set<string>)
    ensures t.Lit? ==> Means([t], env, open, All([t], 0))
    ensures t.Ref? && !env.Good(t.name) ==> Means([t], env, open, Bad(t.name, 0))
    ensures t.Ref? && env.Good(t.name) && t.name !in open ==> Means([t], env, open, Endless(t.name))
  {
    assert Goes([t], [t], env, 0);
    if t.Ref? { assert Heads([t], t.name) && Reaches([t], t.name, env, 0); }
  }

  lemma {:induction false} MeanMeans(ts: Tokens, env: Env, open: set<string>)
    ensures Means(ts, env, open, Mean(ts, env, open))
    decreases |open|, |ts|
  {
    hide Means;
    if ts == [] {
      NothingMeans(env, open);
    } else {
      MeansOne(ts[0], env, open);
      MeanMeans(ts[1..], env, open);
      assert ts == [ts[0]] + ts[1..];
      var rest := Mean(ts[1..], env, open);
      match ts[0]
      case Lit(_) => MeansThen([ts[0]], ts[1..], env, open, All([ts[0]], 0), rest);
      case Ref(n) =>
        if !env.Good(n) {
          MeansThen([ts[0]], ts[1..], env, open, Bad(n, 0), rest);
        } else if n !in open {
          MeansThen([ts[0]], ts[1..], env, open, Endless(n), rest);
        } else {
          var inner := Mean(env.values[n], env, open - {n});
          MeanMeans(env.values[n], env, open - {n});
          MeansCounted(n, env, open, inner);
          MeansThen([ts[0]], ts[1..], env, open, Counted(inner), rest);
        }
    }
  }

  lemma NothingMeans(env: Env, open: set<string>)
    ensures Means([], env, open, All([], 0))
  {
  }

  lemma {:induction false} LiteralsHaveNoRef(ts: Tokens)
    requires AllLiteral(ts)
    ensures FirstRef(ts) == |ts|
  {
    FirstRefAfter(ts, []);
    assert ts + [] == ts;
  }

  /**
   * Rewriting the leftmost reference one at a time, whatever the references: it yields the full
   * expansion when that takes fewer replacements than the budget, fails at the first reference
   * without a usable value when that comes within the budget, and otherwise runs out of depth.
   */
  lemma RewriteMeans(ts: Tokens, env: Env, fuel: nat)
    ensures Rewrite(ts, env, fuel) == Verdict(MeaningOf(ts, env), env, fuel)
  {
    hide Goes, Mean;
    var open := env.values.Keys;
    MeanMeans(ts, env, open);
    match Mean(ts, env, open)
    case All(x, c) =>
      GoesRewrites(ts, x, env, c, fuel);
      LiteralsHaveNoRef(x);
    case Bad(n, c) =>
      var us :| Goes(ts, us, env, c) && Heads(us, n);
      GoesRewrites(ts, us, env, c, fuel);
    case Endless(n) =>
      assert GoesOn(ts, env, fuel);
      var us :| Goes(ts, us, env, fuel);
      GoesRewrites(ts, us, env, fuel, fuel);
  }

  // ---------------------------------------------------------------- when a value has a full expansion

  /** Each name on the way refers to the next one. */
  ghost predicate Walk(p: seq<string>, env: Env) {
    forall i :: 0 <= i < |p| - 1 ==> p[i] in env.values && Ref(p[i + 1]) in env.values[p[i]]
  }

  ghost predicate WalkFrom(ts: Tokens, env: Env, p: seq<string>) {
    p != [] && Ref(p[0]) in ts && Walk(p, env)
  }

  /** From `ts` one can follow references to a name that leads back to itself. */
  ghost predicate ReachesCycle(ts: Tokens, env: Env) {
    exists p: seq<string> :: WalkFrom(ts, env, p) && !Distinct(p)
  }

  /** From `ts` one can follow references to a name without a usable value. */
  ghost predicate ReachesBad(ts: Tokens, env: Env) {
    exists p: seq<string> :: WalkFrom(ts, env, p) && !env.Good(p[|p| - 1])
  }

  /** A part with a full expansion gives one to the values of its references. */
  lemma {:induction false} PartsExpand(ts: Tokens, env: Env, open: set<string>, n: string)
    requires Mean(ts, env, open).All? && Ref(n) in ts
    ensures env.Good(n) && n in open && Mean(env.values[n], env, open - {n}).All?
  {
    if ts[0] != Ref(n) { PartsExpand(ts[1..], env, open, n); }
  }

  lemma {:induction false} WalksEnd(ts: Tokens, env: Env, open: set<string>, p: seq<string>)
    requires Mean(ts, env, open).All? && WalkFrom(ts, env, p)
    ensures Distinct(p) && forall i :: 0 <= i < |p| ==> p[i] in open && env.Good(p[i])
    decreases |p|
  {
    PartsExpand(ts, env, open, p[0]);
    if |p| > 1 {
      var rest := p[1..];
      assert Ref(p[1]) in env.values[p[0]];
      assert forall i :: 0 <= i < |rest| ==> rest[i] == p[i + 1];
      WalksEnd(env.values[p[0]], env, open - {p[0]}, rest);
    }
  }

  /** The way to the first bad reference. */
  lemma {:induction false} BadIsReached(ts: Tokens, env: Env, open: set<string>) returns (p: seq<string>)
    requires Mean(ts, env, open).Bad?
    ensures WalkFrom(ts, env, p) && p[|p| - 1] == Mean(ts, env, open).name && !env.Good(p[|p| - 1])
    decreases |open|, |ts|
  {
    if ts[0].Ref? && !env.Good(ts[0].name) {
      p := [ts[0].name];
    } else if ts[0].Ref? && ts[0].name in open && Mean(env.values[ts[0].name], env, open - {ts[0].name}).Bad? {
      var n := ts[0].name;
      var rest := BadIsReached(env.values[n], env, open - {n});
      p := [n] + rest;
      assert p[1] == rest[0];
    } else {
      p := BadIsReached(ts[1..], env, open);
    }
  }

  /** The way round: `path` are the names whose values one is inside. */
  lemma {:induction false} EndlessIsReached(ts: Tokens, env: Env, open: set<string>, path: seq<string>) returns (p: seq<string>)
    requires Mean(ts, env, open).Endless? && Walk(path, env)
    requires path != [] ==> path[|path| - 1] in env.values && forall t :: t in ts ==> t in env.values[path[|path| - 1]]
    requires forall n :: n in env.values && n !in open ==> n in path
    ensures Walk(path + p, env) && p != [] && Ref(p[0]) in ts && !Distinct(path + p)
    decreases |open|, |ts|
  {
    hide Mean;
    EndlessParts(ts, env, open);
    assert ts[0] in ts && forall t :: t in ts[1..] ==> t in ts;
    if ts[0].Ref? && env.Good(ts[0].name) {
      var n := ts[0].name;
      WalkOn(path, env, n);
      if n !in open {
        p := [n];
        var i :| 0 <= i < |path| && path[i] == n;
        assert (path + p)[i] == (path + p)[|path|];
        return;
      }
      if Mean(env.values[n], env, open - {n}).Endless? {
        var rest := EndlessIsReached(env.values[n], env, open - {n}, path + [n]);
        p := [n] + rest;
        assert path + [n] + rest == path + p;
        return;
      }
    }
    p := EndlessIsReached(ts[1..], env, open, path);
  }

  lemma WalkOn(path: seq<string>, env: Env, n: string)
    requires Walk(path, env)
    requires path != [] ==> path[|path| - 1] in env.values && Ref(n) in env.values[path[|path| - 1]]
    ensures Walk(path + [n], env)
  {
    var p := path + [n];
    forall i | 0 <= i < |p| - 1 ensures p[i] in env.values && Ref(p[i + 1]) in env.values[p[i]] {
      assert p[i] == path[i] && (i + 1 < |path| ==> p[i + 1] == path[i + 1]);
    }
  }

  lemma EndlessParts(ts: Tokens, env: Env, open: set<string>)
    requires Mean(ts, env, open).Endless?
    ensures ts != []
    ensures ts[0].Lit? || (ts[0].name in open && env.Good(ts[0].name)
                           && Mean(env.values[ts[0].name], env, open - {ts[0].name}).All?)
      ==> Mean(ts[1..], env, open).Endless?
    ensures ts[0].Ref? ==> env.Good(ts[0].name)
    ensures ts[0].Ref? && ts[0].name in open ==> !Mean(env.values[ts[0].name], env, open - {ts[0].name}).Bad?
  {
  }

  /** A value has a full expansion exactly when nothing it leads to is missing or leads back to itself. */
  lemma ExpandsExactly(ts: Tokens, env: Env)
    ensures MeaningOf(ts, env).All? <==> !ReachesBad(ts, env) && !ReachesCycle(ts, env)
  {
    var open := env.values.Keys;
    match Mean(ts, env, open)
    case All(_, _) =>
      if ReachesBad(ts, env) {
        var p: seq<string> :| WalkFrom(ts, env, p) && !env.Good(p[|p| - 1]);
        WalksEnd(ts, env, open, p);
      }
      if ReachesCycle(ts, env) {
        var p: seq<string> :| WalkFrom(ts, env, p) && !Distinct(p);
        WalksEnd(ts, env, open, p);
      }
    case Bad(_, _) =>
      var p := BadIsReached(ts, env, open);
    case Endless(_) =>
      var p := EndlessIsReached(ts, env, open, []);
      assert [] + p == p;
  }

  /**
   * With the source's depth: success exactly when nothing reached is missing, no reference leads
   * back to itself, and at most 199 replacements are needed; the result is the full expansion.
   */
  lemma SucceedsExactly(ts: Tokens, env: Env)
    ensures var r, m := Rewrite(ts, env, DEPTH), MeaningOf(ts, env);
      && (r.Done? <==> !ReachesBad(ts, env) && !ReachesCycle(ts, env) && m.All? && m.cost <= 199)
      && (r.Done? ==> r.tokens == m.tokens)
  {
    hide Rewrite, MeaningOf, ReachesBad, ReachesCycle;
    RewriteMeans(ts, env, DEPTH);
    ExpandsExactly(ts, env);
  }

  /**
   * A value that reaches a reference cycle never unfolds, whatever the depth allowed: it ends in
   * an error, the cycle error unless a reference without a usable value comes first.
   */
  lemma CycleNeverUnfolds(ts: Tokens, env: Env, fuel: nat)
    requires ReachesCycle(ts, env)
    ensures !Rewrite(ts, env, fuel).Done?
    ensures Rewrite(ts, env, fuel) != TooDeep <==> MeaningOf(ts, env).Bad? && MeaningOf(ts, env).cost < fuel
  {
    hide Rewrite, MeaningOf, ReachesBad, ReachesCycle;
    RewriteMeans(ts, env, fuel);
    ExpandsExactly(ts, env);
  }

  // ---------------------------------------------------------------- from strings to tokens

  function RenderOne(t: Token, syn: Syntax): string {
    match t
    case Lit(c) => [c]
    case Ref(n) => syn.open + n + syn.close
  }

  function Render(ts: Tokens, syn: Syntax): string {
    if ts == [] then "" else RenderOne(ts[0], syn) + Render(ts[1..], syn)
  }

  /**
   * An opening pair and a close that names cannot run into, and that the opening character is no
   * part of; true of both syntaxes in use.
   */
  predicate Usable(syn: Syntax) {
    && |syn.open| == 2 && syn.open[0] != syn.open[1] && !NameChar(syn.open[0]) && syn.open[0] !in syn.close
    && syn.close != "" && !NameChar(syn.close[0])
  }

  ghost predicate Named(ts: Tokens) {
    forall i :: 0 <= i < |ts| && ts[i].Ref? ==> IsName(ts[i].name)
  }

  ghost predicate EnvNamed(env: Env) {
    forall n :: n in env.values ==> Named(env.values[n])
  }

  /** No literal before the first reference begins a variable together with what follows it. */
  ghost predicate Clear(ts: Tokens, syn: Syntax) {
    forall j :: 0 <= j < FirstRef(ts) ==> MatchAt(Render(ts, syn), j, syn).None?
  }

  /** Where replacing with a budget comes to a stop. */
  function Stop(ts: Tokens, env: Env, fuel: nat): Tokens
    decreases fuel
  {
    var k := FirstRef(ts);
    if fuel == 0 || k == |ts| || !env.Good(ts[k].name) then ts else Stop(Substitute(ts, k, env), env, fuel - 1)
  }

  predicate NoVariable(s: string, syn: Syntax) { Leftmost(s, 0, syn) == |s| }

  lemma {:induction false} RenderConcat(a: Tokens, b: Tokens, syn: Syntax)
    ensures Render(a + b, syn) == Render(a, syn) + Render(b, syn)
  {
    hide RenderOne;
    if a == [] {
      assert a + b == b;
    } else {
      RenderConcat(a[1..], b, syn);
      assert (a + b)[1..] == a[1..] + b;
    }
  }

  lemma {:induction false} RenderLiterals(ts: Tokens, syn: Syntax)
    requires forall i :: 0 <= i < |ts| ==> ts[i].Lit?
    ensures |Render(ts, syn)| == |ts|
    ensures forall i :: 0 <= i < |ts| ==> Render(ts, syn)[i] == ts[i].c
  {
    if ts != [] { RenderLiterals(ts[1..], syn); }
  }

  /** A rendered reference is matched, with its own name. */
  lemma MatchRef(left: string, name: string, right: string, value: string, syn: Syntax)
    requires Usable(syn) && IsName(name)
    ensures MatchAt(left + syn.open + name + syn.close + right, |left|, syn) == Some(name)
    ensures Replace(left + syn.open + name + syn.close + right, |left|, syn, value) == left + value + right
  {
    hide MatchAt, IsName;
    var s, t := left + syn.open + name + syn.close + right, syn.open + name + syn.close;
    assert s == left + (t + right);
    assert s[|left|..] == t + right;
    MatchIsThere(s, |left|, syn, name);
    assert s[..|left|] == left && s[|left| + |t|..] == right;
  }

  lemma NoPairNoMatch(s: string, j: nat, syn: Syntax)
    requires Usable(syn) && !(j + 2 <= |s| && s[j] == syn.open[0] && s[j + 1] == syn.open[1])
    ensures MatchAt(s, j, syn).None?
  {
    if j + 2 <= |s| { assert s[j..j + 2][0] == s[j] && s[j..j + 2][1] == s[j + 1]; }
  }

  lemma NameEndIs(s: string, i: nat, e: nat)
    requires i <= e < |s| && !NameChar(s[e]) && forall j :: i <= j < e ==> NameChar(s[j])
    ensures NameEnd(s, i) == e
  {
    assert NameEnd(s, i) >= e;
  }

  /** A variable that begins before a reference, or before the end, is over by then, whatever else may follow. */
  lemma MatchInside(l: string, x: string, y: string, j: nat, syn: Syntax)
    requires Usable(syn) && j < |l| && (x != "" ==> x[0] == syn.open[0])
    ensures MatchAt(l + x, j, syn).Some? ==> MatchAt(l + y, j, syn).Some?
  {
    var s, t := l + x, l + y;
    if MatchAt(s, j, syn).Some? {
      var from := j + 2;
      var to := NameEnd(s, from);
      var after := to + |syn.close|;
      assert s[j..from][1] == s[j + 1] == syn.open[1];
      assert from <= |l|;
      assert s[to..after][0] == s[to];
      assert to < |l|;
      assert after <= |l|;
      assert s[..|l|] == l == t[..|l|];
      assert t[j..from] == s[..|l|][j..from] && t[to..after] == s[..|l|][to..after];
      assert forall i :: 0 <= i < |l| ==> s[i] == t[i];
      NameEndIs(t, from, to);
    }
  }

  lemma BeginsWithOpen(ts: Tokens, syn: Syntax)
    requires Usable(syn) && ts != [] && ts[0].Ref?
    ensures Render(ts, syn) != "" && Render(ts, syn)[0] == syn.open[0]
  {
  }

  lemma ClearBeforeRest(lits: Tokens, rest: Tokens, next: Tokens, syn: Syntax)
    requires Usable(syn) && AllLiteral(lits) && rest != [] && rest[0].Ref?
    requires forall j :: 0 <= j < |lits| ==> MatchAt(Render(lits + next, syn), j, syn).None?
    ensures forall j :: 0 <= j < |lits| ==> MatchAt(Render(lits + rest, syn), j, syn).None?
  {
    hide MatchAt, Render, Usable;
    RenderLiterals(lits, syn);
    RenderConcat(lits, rest, syn);
    RenderConcat(lits, next, syn);
    BeginsWithOpen(rest, syn);
    forall j | 0 <= j < |lits|
      ensures MatchAt(Render(lits + rest, syn), j, syn).None?
    {
      MatchInside(Render(lits, syn), Render(rest, syn), Render(next, syn), j, syn);
    }
  }

  /** A variable that literal text has begun stays there when a later reference is replaced. */
  lemma ClearBefore(ts: Tokens, env: Env, syn: Syntax)
    requires Usable(syn) && FirstRef(ts) < |ts| && env.Good(ts[FirstRef(ts)].name)
    requires Clear(Substitute(ts, FirstRef(ts), env), syn)
    ensures Clear(ts, syn)
  {
    hide MatchAt, Render, Usable, FirstRef;
    var k := FirstRef(ts);
    var lits, rest, next := ts[..k], ts[k..], env.values[ts[k].name] + ts[k + 1..];
    assert ts == lits + rest && Substitute(ts, k, env) == lits + next;
    FirstRefAfter(lits, next);
    ClearBeforeRest(lits, rest, next, syn);
  }

  lemma {:induction false} ClearAtStop(ts: Tokens, env: Env, syn: Syntax, fuel: nat)
    requires Usable(syn) && Clear(Stop(ts, env, fuel), syn)
    ensures Clear(ts, syn)
    decreases fuel
  {
    hide Usable, Clear, Substitute;
    var k := FirstRef(ts);
    if fuel > 0 && k < |ts| && env.Good(ts[k].name) {
      ClearAtStop(Substitute(ts, k, env), env, syn, fuel - 1);
      ClearBefore(ts, env, syn);
    }
  }

  lemma {:induction false} ClearAtEarlierStop(ts: Tokens, env: Env, syn: Syntax, fuel: nat, more: nat)
    requires Usable(syn) && fuel <= more && Clear(Stop(ts, env, more), syn)
    ensures Clear(Stop(ts, env, fuel), syn)
    decreases fuel
  {
    hide Usable, Clear, Substitute;
    var k := FirstRef(ts);
    if fuel == 0 {
      ClearAtStop(ts, env, syn, more);
    } else if k < |ts| && env.Good(ts[k].name) {
      ClearAtEarlierStop(Substitute(ts, k, env), env, syn, fuel - 1, more - 1);
    }
  }

  lemma RenderMiddle(left: Tokens, mid: Tokens, right: Tokens, syn: Syntax)
    ensures Render(left + mid + right, syn) == Render(left, syn) + Render(mid, syn) + Render(right, syn)
  {
    RenderConcat(left, mid, syn);
    RenderConcat(left + mid, right, syn);
  }

  lemma RenderSingle(n: string, syn: Syntax)
    ensures Render([Ref(n)], syn) == syn.open + n + syn.close
  {
    assert [Ref(n)][1..] == [];
    assert Render([], syn) == "";
  }

  /** A rendered value around one of its references. */
  lemma RenderAroundRef(left: Tokens, n: string, right: Tokens, syn: Syntax)
    ensures Render(left + [Ref(n)] + right, syn)
         == Render(left, syn) + syn.open + n + syn.close + Render(right, syn)
  {
    hide Render;
    RenderMiddle(left, [Ref(n)], right, syn);
    RenderSingle(n, syn);
    var l, r := Render(left, syn), Render(right, syn);
    assert l + (syn.open + n + syn.close) + r == l + syn.open + n + syn.close + r;
  }

  /** Without references nothing matches. */
  lemma LeftmostOfLiterals(ts: Tokens, syn: Syntax)
    requires FirstRef(ts) == |ts|
    ensures |Render(ts, syn)| == |ts|
    ensures Clear(ts, syn) <==> NoVariable(Render(ts, syn), syn)
  {
    RenderLiterals(ts, syn);
  }

  /** Otherwise the leftmost match is the first reference, and replacing it substitutes it. */
  lemma LeftmostIsFirstRef(ts: Tokens, value: Tokens, syn: Syntax)
    requires Usable(syn) && Named(ts) && Clear(ts, syn) && FirstRef(ts) < |ts|
    ensures var k, s := FirstRef(ts), Render(ts, syn);
      k < |s| && Leftmost(s, 0, syn) == k && MatchAt(s, k, syn) == Some(ts[k].name)
      && Replace(s, k, syn, Render(value, syn)) == Render(ts[..k] + value + ts[k + 1..], syn)
  {
    hide IsName, Render, MatchAt, Leftmost;
    var k := FirstRef(ts);
    var left, n, right := ts[..k], ts[k].name, ts[k + 1..];
    assert ts == left + [Ref(n)] + right;
    RenderLiterals(left, syn);
    var l, r := Render(left, syn), Render(right, syn);
    RenderAroundRef(left, n, right, syn);
    RenderMiddle(left, value, right, syn);
    MatchRef(l, n, r, Render(value, syn), syn);
  }

  lemma SubstitutionNamed(ts: Tokens, k: nat, env: Env)
    requires Named(ts) && EnvNamed(env) && k < |ts| && ts[k].Ref? && env.Good(ts[k].name)
    ensures Named(Substitute(ts, k, env))
  {
    hide IsName;
    var value, us := env.values[ts[k].name], Substitute(ts, k, env);
    forall i | 0 <= i < |us| && us[i].Ref?
      ensures IsName(us[i].name)
    {
      if i < k {
        assert us[i] == ts[i];
      } else if i < k + |value| {
        assert us[i] == value[i - k];
      } else {
        assert us[i] == ts[i - |value| + 1];
      }
    }
  }

  lemma RenderEmpty(ts: Tokens, syn: Syntax)
    requires Usable(syn)
    ensures Render(ts, syn) == "" <==> ts == []
  {
  }

  /** `withVar` answers with the rendered values of `env`. */
  ghost predicate Answers(withVar: Lookup, env: Env, syn: Syntax) {
    forall n :: withVar(n) == (
      if n in env.values then Some(Render(env.values[n], syn)) else if env.total then Some("") else None)
  }

  /** The rendering of what token rewriting yields. */
  function RenderOutcome(r: TokenOutcome, syn: Syntax): Outcome {
    match r
    case Done(ts) => Value(Render(ts, syn))
    case Missing(n) => NotFound(n)
    case TooDeep => Cycle
    case Undefined(n) => Crash(n)
  }

  /**
   * Unfolding strings is unfolding tokens, as long as no literal text has begun a variable where
   * the tokens come to a stop; what begins one on the way still does then.
   */
  lemma {:induction false} StringsFollowTokens(ts: Tokens, env: Env, withVar: Lookup, syn: Syntax, fuel: nat)
    requires Usable(syn) && Named(ts) && EnvNamed(env) && Answers(withVar, env, syn) && Clear(Stop(ts, env, fuel), syn)
    ensures Unfold(Render(ts, syn), withVar, syn, fuel) == RenderOutcome(Rewrite(ts, env, fuel), syn)
    decreases fuel
  {
    hide Usable, Named, Clear, Render, MatchAt, Leftmost, Replace, Unfold;
    UnfoldStep(Render(ts, syn), withVar, syn, fuel);
    if fuel > 0 {
      var k := FirstRef(ts);
      ClearAtStop(ts, env, syn, fuel);
      if k == |ts| {
        LeftmostOfLiterals(ts, syn);
      } else {
        var n := ts[k].name;
        var value := if n in env.values then env.values[n] else [];
        LeftmostIsFirstRef(ts, value, syn);
        RenderEmpty(value, syn);
        if env.Good(n) {
          SubstitutionNamed(ts, k, env);
          StringsFollowTokens(Substitute(ts, k, env), env, withVar, syn, fuel - 1);
        }
      }
    }
  }

  /** What unfolding yields has no variable in it. */
  lemma {:induction false} ValueHasNoVariable(s: string, withVar: Lookup, syn: Syntax, fuel: nat)
    ensures Unfold(s, withVar, syn, fuel).Value? ==> NoVariable(Unfold(s, withVar, syn, fuel).text, syn)
    decreases fuel
  {
    hide MatchAt, Leftmost, Replace;
    if fuel > 0 {
      var k := Leftmost(s, 0, syn);
      if k < |s| {
        var value := withVar(MatchAt(s, k, syn).value);
        if value.Some? && value.value != "" {
          ValueHasNoVariable(Replace(s, k, syn, value.value), withVar, syn, fuel - 1);
        }
      }
    }
  }

  lemma {:induction false} StopsWhenDone(ts: Tokens, env: Env, fuel: nat)
    requires Rewrite(ts, env, fuel).Done?
    ensures Stop(ts, env, fuel) == Rewrite(ts, env, fuel).tokens && FirstRef(Stop(ts, env, fuel)) == |Stop(ts, env, fuel)|
    decreases fuel
  {
    hide Substitute;
    var k := FirstRef(ts);
    if k < |ts| { StopsWhenDone(Substitute(ts, k, env), env, fuel - 1); }
  }

  /**
   * A text unfolds to the full expansion of its references exactly when the budget exceeds the
   * replacements needed and the expansion, read as text, has no variable in it.
   */
  lemma ExpandsInText(ts: Tokens, env: Env, withVar: Lookup, syn: Syntax, fuel: nat)
    requires Usable(syn) && Named(ts) && EnvNamed(env) && Answers(withVar, env, syn) && MeaningOf(ts, env).All?
    ensures var m := MeaningOf(ts, env);
      Unfold(Render(ts, syn), withVar, syn, fuel) == Value(Render(m.tokens, syn))
      <==> m.cost < fuel && NoVariable(Render(m.tokens, syn), syn)
  {
    hide Usable, Named, EnvNamed, Answers, Clear, Render, Unfold, Rewrite, MeaningOf, NoVariable, Stop;
    var m := MeaningOf(ts, env);
    var enough := if m.cost < fuel then fuel else m.cost + 1;
    RewriteMeans(ts, env, enough);
    StopsWhenDone(ts, env, enough);
    LeftmostOfLiterals(m.tokens, syn);
    ValueHasNoVariable(Render(ts, syn), withVar, syn, fuel);
    if NoVariable(Render(m.tokens, syn), syn) {
      ClearAtEarlierStop(ts, env, syn, fuel, enough);
      StringsFollowTokens(ts, env, withVar, syn, fuel);
      RewriteMeans(ts, env, fuel);
    }
  }

  // ---------------------------------------------------------------- reading a text as tokens

  /** The text as literals and references. */
  function Tokenize(s: string, syn: Syntax): Tokens
    decreases |s|
  {
    if s == "" then []
    else
      match MatchAt(s, 0, syn)
      case None => [Lit(s[0])] + Tokenize(s[1..], syn)
      case Some(n) =>
        [Ref(n)] + Tokenize(s[|syn.open| + |n| + |syn.close|..], syn)
  }

  lemma MatchedText(s: string, syn: Syntax)
    requires MatchAt(s, 0, syn).Some?
    ensures var n := MatchAt(s, 0, syn).value;
      && IsName(n) && |syn.open| + |n| + |syn.close| <= |s|
      && s == syn.open + n + syn.close + s[|syn.open| + |n| + |syn.close|..]
  {
    var from := |syn.open|;
    var to := NameEnd(s, from);
    var after := to + |syn.close|;
    assert s[..from] == syn.open && s[to..after] == syn.close;
    assert s == s[..from] + s[from..to] + s[to..after] + s[after..];
  }

  /** Every text is the rendering of its tokens, and its references are names. */
  lemma {:induction false} TokenizeRenders(s: string, syn: Syntax)
    requires Usable(syn)
    ensures Render(Tokenize(s, syn), syn) == s
    ensures Named(Tokenize(s, syn))
    decreases |s|
  {
    hide MatchAt, IsName;
    if s != "" {
      var m := MatchAt(s, 0, syn);
      if m.None? {
        TokenizeRenders(s[1..], syn);
        assert s == [s[0]] + s[1..];
      } else {
        MatchedText(s, syn);
        TokenizeRenders(s[|syn.open| + |m.value| + |syn.close|..], syn);
      }
    }
  }

  lemma StartsAtPrefix(s: string, i: nat, t: string)
    requires i <= |s|
    ensures StartsAt(s, i, t) <==> t <= s[i..]
  {
    if i + |t| <= |s| { assert s[i..][..|t|] == s[i..i + |t|]; }
  }

  lemma StartsWithBoth(s: string, i: nat, a: string, b: string)
    ensures StartsAt(s, i, a + b) <==> StartsAt(s, i, a) && StartsAt(s, i + |a|, b)
  {
    if i + |a| + |b| <= |s| {
      var both := s[i..i + |a| + |b|];
      assert both == s[i..i + |a|] + s[i + |a|..i + |a| + |b|];
      assert both == a + b ==> both[..|a|] == a && both[|a|..] == b;
      assert both[..|a|] == s[i..i + |a|] && both[|a|..] == s[i + |a|..i + |a| + |b|];
    }
  }

  lemma NameAt(s: string, i: nat, n: string, close: string)
    requires StartsAt(s, i, n) && IsName(n) && StartsAt(s, i + |n|, close) && close != "" && !NameChar(close[0])
    ensures NameEnd(s, i) == i + |n|
  {
    assert forall j :: i <= j < i + |n| ==> s[j] == s[i..i + |n|][j - i];
    assert s[i + |n|] == s[i + |n|..i + |n| + |close|][0];
    NameEndIs(s, i, i + |n|);
  }

  lemma MatchIsThere(s: string, i: nat, syn: Syntax, n: string)
    requires Usable(syn) && i <= |s|
    ensures MatchAt(s, i, syn) == Some(n) <==> IsName(n) && syn.open + n + syn.close <= s[i..]
  {
    StartsAtPrefix(s, i, syn.open + n + syn.close);
    StartsWithBoth(s, i, syn.open + n, syn.close);
    StartsWithBoth(s, i, syn.open, n);
    if IsName(n) && StartsAt(s, i + 2, n) && StartsAt(s, i + 2 + |n|, syn.close) {
      NameAt(s, i + 2, n, syn.close);
    }
  }

  /** A letter, a digit, or one of _ . and -, by their codes. */
  predicate NameCode(c: int) {
    97 <= c <= 122 || 65 <= c <= 90 || 48 <= c <= 57 || c == 95 || c == 46 || c == 45
  }

  /** Where a text has a variable, and which: in files `%(`name`)s`, of the environment `${`name`}`. */
  lemma VariablesExactly(s: string, i: nat, n: string)
    requires i <= |s|
    ensures MatchAt(s, i, FILE_VARIABLE) == Some(n)
      <==> n != "" && (forall j :: 0 <= j < |n| ==> NameCode(n[j] as int)) && "%(" + n + ")s" <= s[i..]
    ensures MatchAt(s, i, ENVIRONMENT_VARIABLE) == Some(n)
      <==> n != "" && (forall j :: 0 <= j < |n| ==> NameCode(n[j] as int)) && "${" + n + "}" <= s[i..]
  {
    hide MatchAt;
    BothSyntaxesUsable();
    MatchIsThere(s, i, FILE_VARIABLE, n);
    MatchIsThere(s, i, ENVIRONMENT_VARIABLE, n);
  }

  // ---------------------------------------------------------------- what the source computes

  /** How the source's unfolding ends, told from the meaning of the text's references. */
  function OutcomeOf(s: string, env: Env, syn: Syntax): Outcome {
    match MeaningOf(Tokenize(s, syn), env)
    case All(x, c) => if c <= 199 then Value(Render(x, syn)) else Cycle
    case Bad(n, c) => if c > 199 then Cycle else if env.Undefined(n) then Crash(n) else NotFound(n)
    case Endless(_) => Cycle
  }

  /**
   * Unfolding a text: the full expansion when that takes at most 199 replacements; the first
   * reference without a usable value, if no more replacements come before it, is reported when it
   * is empty and crashes when it is not there; anything else is reported as a cycle. A full
   * expansion is what the source computes exactly when it has no variable in it, made of literal
   * text; an error is when no literal text has begun one by then.
   */
  lemma UnfoldsToMeaning(s: string, env: Env, withVar: Lookup, syn: Syntax)
    requires Usable(syn) && EnvNamed(env) && Answers(withVar, env, syn)
    ensures var r := OutcomeOf(s, env, syn);
      r.Value? ==> (Unfold(s, withVar, syn, DEPTH) == r <==> NoVariable(r.text, syn))
    ensures Clear(Stop(Tokenize(s, syn), env, DEPTH), syn) ==> Unfold(s, withVar, syn, DEPTH) == OutcomeOf(s, env, syn)
  {
    hide Unfold, Rewrite, MeaningOf, Render, Tokenize, Named, EnvNamed, NoVariable, Clear, Usable;
    var ts := Tokenize(s, syn);
    TokenizeRenders(s, syn);
    RewriteMeans(ts, env, DEPTH);
    if Clear(Stop(ts, env, DEPTH), syn) { StringsFollowTokens(ts, env, withVar, syn, DEPTH); }
    if MeaningOf(ts, env).All? { ExpandsInText(ts, env, withVar, syn, DEPTH); }
  }

  /**
   * A text unfolds to the full expansion of its references exactly when none of them leads to a
   * missing value or back to itself, at most 199 replacements are needed and no variable is left.
   */
  lemma UnfoldsExactly(s: string, env: Env, withVar: Lookup, syn: Syntax)
    requires Usable(syn) && EnvNamed(env) && Answers(withVar, env, syn)
    ensures var ts := Tokenize(s, syn);
      var m := MeaningOf(ts, env);
      (m.All? && Unfold(s, withVar, syn, DEPTH) == Value(Render(m.tokens, syn)))
      <==> (&& !ReachesBad(ts, env) && !ReachesCycle(ts, env)
            && m.All? && m.cost <= 199 && NoVariable(Render(m.tokens, syn), syn))
  {
    hide Unfold, Rewrite, MeaningOf, Render, Tokenize, Named, EnvNamed, NoVariable, Usable, ReachesBad, ReachesCycle;
    var ts := Tokenize(s, syn);
    TokenizeRenders(s, syn);
    ExpandsExactly(ts, env);
    if MeaningOf(ts, env).All? { ExpandsInText(ts, env, withVar, syn, DEPTH); }
  }

  /** No literal is the first character of an opening pair. */
  ghost predicate Plain(ts: Tokens, syn: Syntax)
    requires Usable(syn)
  {
    forall i :: 0 <= i < |ts| ==> ts[i] != Lit(syn.open[0])
  }

  lemma PlainIsClear(ts: Tokens, syn: Syntax)
    requires Usable(syn) && Plain(ts, syn)
    ensures Clear(ts, syn)
  {
    hide MatchAt, Render;
    var k := FirstRef(ts);
    assert ts == ts[..k] + ts[k..];
    RenderLiterals(ts[..k], syn);
    RenderConcat(ts[..k], ts[k..], syn);
    forall j | 0 <= j < k
      ensures MatchAt(Render(ts, syn), j, syn).None?
    {
      NoPairNoMatch(Render(ts, syn), j, syn);
    }
  }

  /** Literal text begins no variable when none of it is the first character of an opening pair. */
  lemma {:induction false} PlainStopsClear(ts: Tokens, env: Env, syn: Syntax, fuel: nat)
    requires Usable(syn) && Plain(ts, syn) && forall n :: n in env.values ==> Plain(env.values[n], syn)
    ensures Clear(Stop(ts, env, fuel), syn)
    decreases fuel
  {
    hide Usable, Clear;
    PlainIsClear(ts, syn);
    var k := FirstRef(ts);
    if fuel > 0 && k < |ts| && env.Good(ts[k].name) {
      PlainStopsClear(Substitute(ts, k, env), env, syn, fuel - 1);
    }
  }

  lemma BothSyntaxesUsable()
    ensures Usable(FILE_VARIABLE) && Usable(ENVIRONMENT_VARIABLE)
  {
  }
}
