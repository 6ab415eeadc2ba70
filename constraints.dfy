/**
 * The constraint set (constraints.go:11-65, 102-178): the operator table,
 * the clause parser `parseConstraint`, `NewConstraint` with its `||` / `,`
 * structure, and `Check`, which accepts a version when some `||` group has
 * every clause satisfied.
 *
 * The `Version` type lives outside this file. It is a type parameter `V`,
 * and `NewVersion`, `Compare` and `Equal` are given as a `VersionApi`; the
 * facts the file relies on about them are collected in `Lawful`.
 */
module Constraints {
  import opened Wrappers
  import opened StringOps
  import opened Grammar
  import opened Rewrite

  /** `NewVersion`, `(*Version).Compare` and `(*Version).Equal`. */
  datatype VersionApi<!V> = VersionApi(
    newVersion: string -> Option<V>,
    compare: (V, V) -> int,
    equal: (V, V) -> bool)

  /** `Compare` answers -1, 0 or 1, and `Equal` holds exactly when it answers 0. */
  ghost predicate Lawful<V(!new)>(api: VersionApi<V>)
  {
    forall a, b :: (api.compare(a, b) == -1 || api.compare(a, b) == 0 || api.compare(a, b) == 1)
                   && (api.equal(a, b) <==> api.compare(a, b) == 0)
  }

  /** The six constraint functions (constraints.go:156-178). */
  datatype Op = Equal | NotEqual | Greater | Less | GreaterEqual | LessEqual

  /** `constraintOps` (constraints.go:71-81): the nine operator tokens and their functions. */
  function ConstraintOp(token: string): (r: Option<Op>)
    ensures r.Some? <==> token in OpTokens
  {
    if token == "" || token == "=" then Some(Equal)
    else if token == "!=" then Some(NotEqual)
    else if token == ">" then Some(Greater)
    else if token == "<" then Some(Less)
    else if token == ">=" || token == "=>" then Some(GreaterEqual)
    else if token == "<=" || token == "=<" then Some(LessEqual)
    else None
  }

  /**
   * The entries of the table: the aliases of a function mean the same
   * function, and every other token has its own.
   */
  lemma OperatorTable()
    ensures ConstraintOp("") == ConstraintOp("=") == Some(Equal)
    ensures ConstraintOp("!=") == Some(NotEqual)
    ensures ConstraintOp(">") == Some(Greater)
    ensures ConstraintOp("<") == Some(Less)
    ensures ConstraintOp(">=") == ConstraintOp("=>") == Some(GreaterEqual)
    ensures ConstraintOp("<=") == ConstraintOp("=<") == Some(LessEqual)
  {
  }

  /** `c.function(v, c.con)`: version `v` against the bound `con`. */
  predicate Holds<V>(api: VersionApi<V>, op: Op, v: V, con: V)
  {
    match op
    case Equal => api.equal(v, con)
    case NotEqual => !api.equal(v, con)
    case Greater => api.compare(v, con) == 1
    case Less => api.compare(v, con) == -1
    case GreaterEqual => api.compare(v, con) >= 0
    case LessEqual => api.compare(v, con) <= 0
  }

  /**
   * Under a lawful version API: `!=` is the negation of `=`, exactly one of
   * `<`, `=`, `>` holds, `>=` is `>` or `=`, and `<=` is `<` or `=`.
   */
  lemma OperatorSemantics<V(!new)>(api: VersionApi<V>, v: V, con: V)
    requires Lawful(api)
    ensures Holds(api, NotEqual, v, con) <==> !Holds(api, Equal, v, con)
    ensures Holds(api, Equal, v, con) <==> api.compare(v, con) == 0
    ensures Holds(api, Less, v, con) || Holds(api, Equal, v, con) || Holds(api, Greater, v, con)
    ensures !(Holds(api, Less, v, con) && Holds(api, Equal, v, con))
    ensures !(Holds(api, Less, v, con) && Holds(api, Greater, v, con))
    ensures !(Holds(api, Equal, v, con) && Holds(api, Greater, v, con))
    ensures Holds(api, GreaterEqual, v, con) <==> Holds(api, Greater, v, con) || Holds(api, Equal, v, con)
    ensures Holds(api, LessEqual, v, con) <==> Holds(api, Less, v, con) || Holds(api, Equal, v, con)
  {
  }

  /** An individual constraint: its function, its bound and whether a wildcard was filled in. */
  datatype Clause<V> = Clause(op: Op, con: V, dirty: bool)

  /** `(*constraint).check`. */
  predicate ClauseHolds<V>(api: VersionApi<V>, c: Clause<V>, v: V)
  {
    Holds(api, c.op, v, c.con)
  }

  /** `Constraints`: the `||` groups, each a list of clauses that must all hold. */
  datatype Constraints<V> = Constraints(constraints: seq<seq<Clause<V>>>)

  /** "improper constraint: ..." and "constraint Parser Error". */
  datatype Error = Improper(clause: string) | ParserError

  /**
   * The version text `parseConstraint` hands to `NewVersion`, and whether a
   * wildcard was filled in (constraints.go:129-137).
   */
  function BoundText(cv: Cv): (string, bool)
  {
    if IsX(Bare(cv.minor)) then (cv.major + ".0.0" + Tagged('-', cv.pre), true)
    else if IsX(Bare(cv.patch)) then (cv.major + Tagged('.', cv.minor) + ".0" + Tagged('-', cv.pre), true)
    else (CvText(cv), false)
  }

  /** The version token whose text `BoundText` is. */
  function BoundCv(cv: Cv): (b: Cv)
    requires ValidCv(cv)
    ensures ValidCv(b) && CvText(b) == BoundText(cv).0
    ensures b.major == cv.major && b.pre == cv.pre
    ensures !IsX(Bare(b.minor)) && !IsX(Bare(b.patch))
  {
    IsXExactly("0");
    assert All(CvChar, "0");
    if IsX(Bare(cv.minor)) then
      ZeroZeroText(cv.major, cv.pre);
      Cv(false, cv.major, Some("0"), Some("0"), cv.pre, None)
    else if IsX(Bare(cv.patch)) then
      BareText(cv.major, cv.minor, Some("0"), cv.pre);
      assert Tagged('.', Some("0")) == ".0";
      Cv(false, cv.major, cv.minor, Some("0"), cv.pre, None)
    else cv
  }

  /**
   * The bound text is itself a version text: a wildcard minor makes minor
   * and patch 0, otherwise a wildcard patch makes patch 0, and only then is
   * the clause dirty; 'v' and build metadata survive only in a clean clause.
   * A wildcard major is passed on as it is.
   */
  lemma BoundTextWildcards(cv: Cv)
    requires ValidCv(cv)
    ensures BoundText(cv).1 <==> IsX(Bare(cv.minor)) || IsX(Bare(cv.patch))
    ensures IsX(Bare(cv.minor)) ==> BoundCv(cv) == Cv(false, cv.major, Some("0"), Some("0"), cv.pre, None)
    ensures !IsX(Bare(cv.minor)) && IsX(Bare(cv.patch)) ==>
              BoundCv(cv) == Cv(false, cv.major, cv.minor, Some("0"), cv.pre, None)
    ensures !BoundText(cv).1 ==> BoundText(cv).0 == CvText(cv)
  {
  }

  /** `parseConstraint` (constraints.go:123-153). */
  function ParseConstraint<V>(api: VersionApi<V>, c: string): (r: Result<Clause<V>, Error>)
    ensures r == Failure(Improper(c)) <==> MatchClause(c).None?
    ensures r.Success? ==> MatchClause(c).Some?
  {
    match MatchClause(c)
    case None => Failure(Improper(c))
    case Some(m) =>
      var (ver, dirty) := BoundText(m.cv);
      match api.newVersion(ver)
      case None => Failure(ParserError)
      case Some(con) => Success(Clause(ConstraintOp(m.op).value, con, dirty))
  }

  /**
   * A clause is improper exactly when it is not an operator and a version
   * surrounded by white space; a proper clause parses to its operator and
   * to the version `NewVersion` makes of its bound text, or fails in
   * `NewVersion`.
   */
  lemma ParseConstraintCases<V>(api: VersionApi<V>, c: string)
    ensures ParseConstraint(api, c) == Failure(Improper(c)) <==> !exists m :: ValidClause(m) && ClauseText(m) == c
    ensures forall m :: ValidClause(m) && ClauseText(m) == c ==>
              ParseConstraint(api, c) ==
                match api.newVersion(BoundText(m.cv).0)
                case None => Failure(ParserError)
                case Some(con) => Success(Clause(ConstraintOp(m.op).value, con, BoundText(m.cv).1))
  {
    MatchClauseExactly(c);
    forall m | ValidClause(m) && ClauseText(m) == c {
      MatchClauseText(m);
    }
  }

  /**
   * A list of outcomes taken left to right: all the values when every one
   * succeeds, otherwise the error of the first failure.
   */
  function Collect<T, E>(rs: seq<Result<T, E>>): (r: Result<seq<T>, E>)
    ensures r.Success? ==> |r.value| == |rs| && forall i :: 0 <= i < |rs| ==> rs[i] == Success(r.value[i])
    ensures r.Failure? ==> exists i :: 0 <= i < |rs| && rs[i] == Failure(r.error)
                                       && forall j :: 0 <= j < i ==> rs[j].Success?
  {
    if rs == [] then Success([])
    else
      var init := rs[..|rs| - 1];
      match Collect(init)
      case Failure(e) => Failure(e)
      case Success(vs) =>
        match rs[|rs| - 1]
        case Failure(e) => Failure(e)
        case Success(v) => Success(vs + [v])
  }

  /** A failure in a prefix is the outcome of the whole list. */
  lemma {:induction false} CollectPrefix<T, E>(rs: seq<Result<T, E>>, n: nat)
    requires n <= |rs| && Collect(rs[..n]).Failure?
    ensures Collect(rs) == Collect(rs[..n])
    decreases |rs|
  {
    if n < |rs| {
      assert rs[..|rs| - 1][..n] == rs[..n];
      CollectPrefix(rs[..|rs| - 1], n);
    } else {
      assert rs[..n] == rs;
    }
  }

  /** One more success extends the collected values; a failure after successes is the outcome. */
  lemma CollectStep<T, E>(rs: seq<Result<T, E>>, n: nat, vs: seq<T>)
    requires n < |rs| && Collect(rs[..n]) == Success(vs)
    ensures rs[n].Success? ==> Collect(rs[..n + 1]) == Success(vs + [rs[n].value])
    ensures rs[n].Failure? ==> Collect(rs) == Failure(rs[n].error)
  {
    assert rs[..n + 1][..n] == rs[..n];
    if rs[n].Failure? {
      CollectPrefix(rs, n + 1);
    }
  }

  /** The outcome of every `,`-separated clause of one group. */
  function ParseEach<V>(api: VersionApi<V>, cs: seq<string>): (rs: seq<Result<Clause<V>, Error>>)
    ensures |rs| == |cs| && forall i :: 0 <= i < |cs| ==> rs[i] == ParseConstraint(api, cs[i])
  {
    seq(|cs|, i requires 0 <= i < |cs| => ParseConstraint(api, cs[i]))
  }

  /** One group: its clauses parsed left to right; the first clause that fails decides the error. */
  function ParseAnd<V>(api: VersionApi<V>, cs: seq<string>): Result<seq<Clause<V>>, Error>
  {
    Collect(ParseEach(api, cs))
  }

  /** The outcome of every `||`-separated group, each split on `,`. */
  function ParseGroups<V>(api: VersionApi<V>, ors: seq<string>): (rs: seq<Result<seq<Clause<V>>, Error>>)
    ensures |rs| == |ors| && forall k :: 0 <= k < |ors| ==> rs[k] == ParseAnd(api, Split(ors[k], ","))
  {
    seq(|ors|, k requires 0 <= k < |ors| => ParseAnd(api, Split(ors[k], ",")))
  }

  /** All groups, parsed left to right; the first failure decides. */
  function ParseOr<V>(api: VersionApi<V>, ors: seq<string>): Result<seq<seq<Clause<V>>>, Error>
  {
    Collect(ParseGroups(api, ors))
  }

  /**
   * The regular-expression engine's answers for the three rewrite passes:
   * for each text, its segmentation into literal text and matches.
   */
  datatype Matcher = Matcher(
    ranges: string -> seq<Segment<RangeMatch>>,
    carets: string -> seq<Segment<CaretCv>>,
    tildes: string -> seq<Segment<TildeToken>>)

  /** Every answer is a segmentation of the text it was asked about. */
  ghost predicate Honest(mt: Matcher)
  {
    forall s :: Reads(mt.ranges(s), RangeEdit, s) && Reads(mt.carets(s), CaretEdit, s)
                && Reads(mt.tildes(s), TildeEdit, s)
  }

  /** The rewrite passes in their fixed order (constraints.go:183-187), ranges expanded in place. */
  function Rewritten(mt: Matcher, c: string): string
  {
    var r := After(PiecesOf(mt.ranges(c), RangeEdit));
    var k := CaretPass(r, mt.carets(r));
    TildePass(k, mt.tildes(k))
  }

  /** The rewrite passes with the range pass as written: each match text replaced where it first occurs. */
  function RewrittenAsWritten(mt: Matcher, c: string): string
  {
    var r := RangePassAsWritten(c, mt.ranges(c));
    var k := CaretPass(r, mt.carets(r));
    TildePass(k, mt.tildes(k))
  }

  /** What `NewConstraint` makes of the rewritten text. */
  function Assemble<V>(api: VersionApi<V>, text: string): Result<Constraints<V>, Error>
  {
    match ParseOr(api, Split(text, "||"))
    case Failure(e) => Failure(e)
    case Success(gs) => Success(Constraints(gs))
  }

  /** What `NewConstraint` computes. */
  function Compile<V>(api: VersionApi<V>, mt: Matcher, c: string): Result<Constraints<V>, Error>
  {
    Assemble(api, Rewritten(mt, c))
  }

  /** The loop over `rewriteFuncs` (constraints.go:23-25). */
  method RewriteAll(mt: Matcher, c: string) returns (r: string)
    requires Honest(mt)
    ensures r == Rewritten(mt, c)
  {
    var c1 := RewriteRange(c, mt.ranges(c));
    var c2 := RewriteCarets(c1, mt.carets(c1));
    r := RewriteTilde(c2, mt.tildes(c2));
  }

  /** The loop over `rewriteFuncs` (constraints.go:23-25) with `rewriteRange` as written. */
  method RewriteAllAsWritten(mt: Matcher, c: string) returns (r: string)
    requires Honest(mt)
    ensures r == RewrittenAsWritten(mt, c)
  {
    var c1 := RewriteRangeAsWritten(c, mt.ranges(c));
    var c2 := RewriteCarets(c1, mt.carets(c1));
    r := RewriteTilde(c2, mt.tildes(c2));
  }

  /**
   * `NewConstraint` (constraints.go:19-45): the rewrite passes, then one
   * group per `||` part and one clause per `,` part, in order. The first
   * clause that fails to parse ends the construction with its error.
   */
  method NewConstraint<V>(api: VersionApi<V>, mt: Matcher, c: string) returns (r: Result<Constraints<V>, Error>)
    requires Honest(mt)
    ensures r == Compile(api, mt, c)
  {
    var c3 := RewriteAll(mt, c);
    r := AssembleText(api, c3);
  }

  /** The tail of `NewConstraint` (constraints.go:26-44): split on `||`, parse the groups, wrap them. */
  method AssembleText<V>(api: VersionApi<V>, text: string) returns (r: Result<Constraints<V>, Error>)
    ensures r == Assemble(api, text)
  {
    var ors := Split(text, "||");
    var parsed := ParseAlternatives(api, ors);
    if parsed.Failure? {
      return Failure(parsed.error);
    }
    return Success(Constraints(parsed.value));
  }

  /** The outer loop of `NewConstraint` (constraints.go:28-43): each group in order, stopping at the first error. */
  method ParseAlternatives<V>(api: VersionApi<V>, ors: seq<string>) returns (r: Result<seq<seq<Clause<V>>>, Error>)
    ensures r == ParseOr(api, ors)
  {
    ghost var gs := ParseGroups(api, ors);
    var or: seq<seq<Clause<V>>> := [];
    for k := 0 to |ors|
      invariant Collect(gs[..k]) == Success(or)
    {
      var cs := Split(ors[k], ",");
      var result := ParseClauses(api, cs);
      GroupStep(api, ors, k, or);
      if result.Failure? {
        return Failure(result.error);
      }
      or := or + [result.value];
    }
    assert gs[..|gs|] == gs;
    return Success(or);
  }

  /** The inner loop of `NewConstraint` (constraints.go:30-40): one group's clauses, in order. */
  method ParseClauses<V>(api: VersionApi<V>, cs: seq<string>) returns (r: Result<seq<Clause<V>>, Error>)
    ensures r == ParseAnd(api, cs)
  {
    ghost var rs := ParseEach(api, cs);
    var result: seq<Clause<V>> := [];
    for i := 0 to |cs|
      invariant Collect(rs[..i]) == Success(result)
    {
      var pc := ParseConstraint(api, cs[i]);
      ClauseStep(api, cs, i, result);
      if pc.Failure? {
        return Failure(pc.error);
      }
      result := result + [pc.value];
    }
    assert rs[..|rs|] == rs;
    return Success(result);
  }

  /** One turn of the inner loop: a parsed clause is appended, a failure is the group's outcome. */
  lemma ClauseStep<V>(api: VersionApi<V>, cs: seq<string>, i: nat, result: seq<Clause<V>>)
    requires i < |cs| && Collect(ParseEach(api, cs)[..i]) == Success(result)
    ensures ParseConstraint(api, cs[i]).Success? ==>
              Collect(ParseEach(api, cs)[..i + 1]) == Success(result + [ParseConstraint(api, cs[i]).value])
    ensures ParseConstraint(api, cs[i]).Failure? ==> ParseAnd(api, cs) == Failure(ParseConstraint(api, cs[i]).error)
  {
    CollectStep(ParseEach(api, cs), i, result);
  }

  /** One iteration of the outer loop: the next `||` part's group is appended, or its error decides. */
  lemma GroupStep<V>(api: VersionApi<V>, ors: seq<string>, k: nat, or: seq<seq<Clause<V>>>)
    requires k < |ors| && Collect(ParseGroups(api, ors)[..k]) == Success(or)
    ensures ParseAnd(api, Split(ors[k], ",")).Success? ==>
              Collect(ParseGroups(api, ors)[..k + 1]) == Success(or + [ParseAnd(api, Split(ors[k], ",")).value])
    ensures ParseAnd(api, Split(ors[k], ",")).Failure? ==>
              ParseOr(api, ors) == Failure(ParseAnd(api, Split(ors[k], ",")).error)
  {
    CollectStep(ParseGroups(api, ors), k, or);
  }

  /** Every clause of one group holds. */
  predicate GroupHolds<V>(api: VersionApi<V>, g: seq<Clause<V>>, v: V)
  {
    forall i :: 0 <= i < |g| ==> ClauseHolds(api, g[i], v)
  }

  /** Some group has every clause satisfied. */
  predicate Satisfied<V>(api: VersionApi<V>, cs: Constraints<V>, v: V)
  {
    exists k :: 0 <= k < |cs.constraints| && GroupHolds(api, cs.constraints[k], v)
  }

  /**
   * `Check` (constraints.go:48-65): the early `break` and `return` do not
   * change the answer, which is whether some group has every clause
   * satisfied.
   */
  method Check<V>(api: VersionApi<V>, cs: Constraints<V>, v: V) returns (ok: bool)
    ensures ok <==> Satisfied(api, cs, v)
  {
    for k := 0 to |cs.constraints|
      invariant forall h :: 0 <= h < k ==> !GroupHolds(api, cs.constraints[h], v)
    {
      var o := cs.constraints[k];
      var joy := true;
      var i := 0;
      while i < |o|
        invariant 0 <= i <= |o|
        invariant forall j :: 0 <= j < i ==> ClauseHolds(api, o[j], v)
      {
        if !ClauseHolds(api, o[i], v) {
          joy := false;
          break;
        }
        i := i + 1;
      }
      if joy {
        return true;
      }
    }
    return false;
  }

  /** A constraint set without groups accepts no version. */
  lemma NoGroupsRejects<V>(api: VersionApi<V>, v: V)
    ensures !Satisfied(api, Constraints([]), v)
  {
  }

  /**
   * A constructed constraint set has one group per `||` part of the
   * rewritten text, and so at least one group; each group has one clause
   * per `,` part of its text, so at least one clause.
   */
  lemma CompileShape<V>(api: VersionApi<V>, mt: Matcher, c: string)
    requires Compile(api, mt, c).Success?
    ensures var gs := Compile(api, mt, c).value.constraints;
            var ors := Split(Rewritten(mt, c), "||");
            && |gs| == |ors| >= 1
            && forall k :: 0 <= k < |gs| ==> |gs[k]| == |Split(ors[k], ",")| >= 1
  {
  }
}
