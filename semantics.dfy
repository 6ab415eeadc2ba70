/**
 * What the rewritten shorthand means once `NewConstraint` has parsed it and
 * `Check` evaluates it: a caret or tilde match becomes one group holding a
 * half-open window `[lower, upper)`, a wildcard major becomes `>= 0.0.0`,
 * and a hyphen range between two versions becomes one group holding the
 * closed interval between them (constraints.go:19-65, 198-316).
 *
 * The versions themselves are whatever the external `NewVersion` makes of
 * the bound texts, so the facts are stated for the values it returns.
 */
module Semantics {
  import opened Wrappers
  import opened StringOps
  import opened Grammar
  import opened Rewrite
  import opened Expansions
  import opened Constraints

  /** A list of successes collects to the list of their values. */
  lemma CollectAll<T, E>(rs: seq<Result<T, E>>, vs: seq<T>)
    requires |rs| == |vs| && forall i :: 0 <= i < |rs| ==> rs[i] == Success(vs[i])
    ensures Collect(rs) == Success(vs)
  {
    var r := Collect(rs);
    if r.Success? {
      assert r.value == vs;
    }
  }

  /** Two successes collect to the pair of their values. */
  lemma CollectPair<T, E>(rs: seq<Result<T, E>>, x: T, y: T)
    requires |rs| == 2 && rs[0] == Success(x) && rs[1] == Success(y)
    ensures Collect(rs) == Success([x, y])
  {
    CollectAll(rs, [x, y]);
  }

  /** One success collects to the singleton of its value. */
  lemma CollectOne<T, E>(rs: seq<Result<T, E>>, x: T)
    requires |rs| == 1 && rs[0] == Success(x)
    ensures Collect(rs) == Success([x])
  {
    CollectAll(rs, [x]);
  }

  /** A text without '|' makes one group, whose clauses are those of its `,` parts. */
  lemma SingleGroup<V>(api: VersionApi<V>, text: string, cs: seq<Clause<V>>)
    requires '|' !in text
    requires ParseAnd(api, Split(text, ",")) == Success(cs)
    ensures Assemble(api, text) == Success(Constraints([cs]))
  {
    SplitAbsent(text, "||");
    CollectAll(ParseGroups(api, [text]), [cs]);
  }

  /** A text whose `,` parts are well-formed clauses holds no '|'. */
  lemma ClausesAvoidBar(text: string, ms: seq<ClauseMatch>)
    requires AllValid(ms) && Split(text, ",") == Texts(ms)
    ensures '|' !in text
  {
    var ts := Texts(ms);
    assert forall i :: 0 <= i < |ts| ==> '|' !in ts[i] by {
      assert !IsSpace('|') && !In(OpChar, '|') && !CvTextChar('|');
      forall i | 0 <= i < |ts| ensures '|' !in ts[i] {
        ClauseAvoids(ms[i], '|');
      }
    }
    JoinAvoids(ts, ",", '|');
    SplitJoin(text, ",");
  }

  /** A well-formed clause whose version holds no wildcard parses to its operator and that version, clean. */
  lemma ParseConcrete<V>(api: VersionApi<V>, m: ClauseMatch, a: V)
    requires ValidClause(m) && Concrete(m.cv) && api.newVersion(CvText(m.cv)) == Some(a)
    ensures ParseConstraint(api, ClauseText(m)) == Success(Clause(ConstraintOp(m.op).value, a, false))
  {
    ParseConstraintCases(api, ClauseText(m));
  }

  /** `>= lo, < hi` parses to one group: at least `a`, below `b`. */
  lemma ParseWindow<V>(api: VersionApi<V>, lo: Cv, hi: Cv, a: V, b: V)
    requires Concrete(lo) && Concrete(hi)
    requires api.newVersion(CvText(lo)) == Some(a) && api.newVersion(CvText(hi)) == Some(b)
    ensures Assemble(api, ">= " + CvText(lo) + ", < " + CvText(hi))
            == Success(Constraints([[Clause(GreaterEqual, a, false), Clause(Less, b, false)]]))
  {
    var text := ">= " + CvText(lo) + ", < " + CvText(hi);
    var ms := Window(lo, hi);
    WindowClauses(lo, hi);
    var c1, c2 := Clause(GreaterEqual, a, false), Clause(Less, b, false);
    var rs := ParseEach(api, Texts(ms));
    OperatorTable();
    assert rs[0] == Success(c1) by {
      ParseConcrete(api, AtLeast(lo), a);
    }
    assert rs[1] == Success(c2) by {
      ParseConcrete(api, Below(hi), b);
    }
    CollectPair(rs, c1, c2);
    assert '|' !in text by {
      ClausesAvoidBar(text, ms);
    }
    SingleGroup(api, text, [c1, c2]);
  }

  /** One group of two clauses is satisfied exactly when both hold. */
  lemma PairHolds<V>(api: VersionApi<V>, c1: Clause<V>, c2: Clause<V>, v: V)
    ensures Satisfied(api, Constraints([[c1, c2]]), v) <==> ClauseHolds(api, c1, v) && ClauseHolds(api, c2, v)
  {
    var g := [c1, c2];
    if ClauseHolds(api, c1, v) && ClauseHolds(api, c2, v) {
      assert GroupHolds(api, Constraints([g]).constraints[0], v);
    }
    if Satisfied(api, Constraints([g]), v) {
      assert GroupHolds(api, g, v);
      assert ClauseHolds(api, g[0], v) && ClauseHolds(api, g[1], v);
    }
  }

  /** The group `>= a, < b` accepts exactly the versions in the half-open window `[a, b)`. */
  lemma WindowHolds<V>(api: VersionApi<V>, a: V, b: V)
    ensures forall v :: Satisfied(api, Constraints([[Clause(GreaterEqual, a, false), Clause(Less, b, false)]]), v)
                        <==> api.compare(v, a) >= 0 && api.compare(v, b) == -1
  {
    forall v ensures Satisfied(api, Constraints([[Clause(GreaterEqual, a, false), Clause(Less, b, false)]]), v)
                     <==> api.compare(v, a) >= 0 && api.compare(v, b) == -1 {
      PairHolds(api, Clause(GreaterEqual, a, false), Clause(Less, b, false), v);
    }
  }

  /** The group `>= a, <= b` accepts exactly the versions in the closed interval `[a, b]`. */
  lemma IntervalHolds<V>(api: VersionApi<V>, a: V, b: V, da: bool, db: bool)
    ensures forall v :: Satisfied(api, Constraints([[Clause(GreaterEqual, a, da), Clause(LessEqual, b, db)]]), v)
                        <==> api.compare(v, a) >= 0 && api.compare(v, b) <= 0
  {
    forall v ensures Satisfied(api, Constraints([[Clause(GreaterEqual, a, da), Clause(LessEqual, b, db)]]), v)
                     <==> api.compare(v, a) >= 0 && api.compare(v, b) <= 0 {
      PairHolds(api, Clause(GreaterEqual, a, da), Clause(LessEqual, b, db), v);
    }
  }

  /** The group `>= a` alone accepts exactly the versions at least `a`. */
  lemma AtLeastHolds<V>(api: VersionApi<V>, a: V)
    ensures forall v :: Satisfied(api, Constraints([[Clause(GreaterEqual, a, false)]]), v) <==> api.compare(v, a) >= 0
  {
    var c := Clause(GreaterEqual, a, false);
    forall v ensures Satisfied(api, Constraints([[c]]), v) <==> api.compare(v, a) >= 0 {
      var g := [c];
      if api.compare(v, a) >= 0 {
        assert GroupHolds(api, Constraints([g]).constraints[0], v);
      }
      if Satisfied(api, Constraints([g]), v) {
        assert GroupHolds(api, g, v);
        assert ClauseHolds(api, g[0], v);
      }
    }
  }

  /** A single well-formed clause whose version holds no wildcard parses to that one clause. */
  lemma ParseOne<V>(api: VersionApi<V>, m: ClauseMatch, a: V)
    requires ValidClause(m) && Concrete(m.cv) && api.newVersion(CvText(m.cv)) == Some(a)
    ensures ParseAnd(api, Texts([m])) == Success([Clause(ConstraintOp(m.op).value, a, false)])
  {
    var rs := ParseEach(api, Texts([m]));
    ParseConcrete(api, m, a);
    CollectOne(rs, Clause(ConstraintOp(m.op).value, a, false));
  }

  /** The one `,` part of `>=0.0.0` parses to the clause `>= z`. */
  lemma ParseAnyVersion<V>(api: VersionApi<V>, z: V)
    requires api.newVersion("0.0.0") == Some(z)
    ensures ParseAnd(api, Split(">=0.0.0", ",")) == Success([Clause(GreaterEqual, z, false)])
  {
    var m := AnyVersion();
    AnyVersionFacts();
    assert ConstraintOp(m.op) == Some(GreaterEqual) by {
      OperatorTable();
    }
    ParseOne(api, m, z);
  }

  /** `>=0.0.0` is one well-formed clause, `>=` and the version "0.0.0". */
  lemma AnyVersionFacts()
    ensures Split(">=0.0.0", ",") == Texts([AnyVersion()])
    ensures ValidClause(AnyVersion()) && Concrete(AnyVersion().cv)
    ensures CvText(AnyVersion().cv) == "0.0.0" && AnyVersion().op == ">="
  {
    AnyVersionClauses();
    assert Concrete(AnyVersion().cv) by {
      NotWildcards(0);
    }
    assert CvText(AnyVersion().cv) == "0.0.0" by {
      ZeroZeroText("0", None);
      assert "0" + ".0.0" + "" == "0.0.0";
    }
  }

  /** `>=0.0.0` parses to one clause: at least the version `z` that `NewVersion` makes of "0.0.0". */
  lemma AnyVersionMeaning<V>(api: VersionApi<V>, z: V)
    requires api.newVersion("0.0.0") == Some(z)
    ensures Assemble(api, ">=0.0.0") == Success(Constraints([[Clause(GreaterEqual, z, false)]]))
    ensures forall v :: Satisfied(api, Constraints([[Clause(GreaterEqual, z, false)]]), v) <==> api.compare(v, z) >= 0
  {
    ParseAnyVersion(api, z);
    assert '|' !in ">=0.0.0" by {
      AnyVersionClauses();
      ClausesAvoidBar(">=0.0.0", [AnyVersion()]);
    }
    SingleGroup(api, ">=0.0.0", [Clause(GreaterEqual, z, false)]);
    AtLeastHolds(api, z);
  }

  /**
   * A caret match with a numeric major accepts exactly the versions at
   * least its lower bound and below `M+1`: the window of the table at
   * constraints.go:212-217, with `M+1` the bare major, also for major 0.
   */
  lemma CaretMeaning<V>(api: VersionApi<V>, cv: CaretCv, a: V, b: V)
    requires !IsX(cv.major)
    requires api.newVersion(CvText(CaretLower(cv))) == Some(a)
    requires api.newVersion(CvText(CaretUpper(cv))) == Some(b)
    ensures Assemble(api, CaretExpansion(cv))
            == Success(Constraints([[Clause(GreaterEqual, a, false), Clause(Less, b, false)]]))
    ensures forall v :: Satisfied(api, Constraints([[Clause(GreaterEqual, a, false), Clause(Less, b, false)]]), v)
                        <==> api.compare(v, a) >= 0 && api.compare(v, b) == -1
  {
    CaretWindow(cv);
    CaretLowerBound(cv);
    CaretUpperBound(cv);
    ParseWindow(api, CaretLower(cv), CaretUpper(cv), a, b);
    WindowHolds(api, a, b);
  }

  /** A caret match with a wildcard major accepts exactly the versions at least 0.0.0. */
  lemma CaretAnyMeaning<V>(api: VersionApi<V>, cv: CaretCv, z: V)
    requires IsX(cv.major) && api.newVersion("0.0.0") == Some(z)
    ensures Assemble(api, CaretExpansion(cv)) == Success(Constraints([[Clause(GreaterEqual, z, false)]]))
    ensures forall v :: Satisfied(api, Constraints([[Clause(GreaterEqual, z, false)]]), v) <==> api.compare(v, z) >= 0
  {
    AnyVersionMeaning(api, z);
  }

  /**
   * A tilde match with a numeric major accepts exactly the versions at
   * least its lower bound and below its upper bound (the table at
   * constraints.go:265-270).
   */
  lemma TildeMeaning<V>(api: VersionApi<V>, t: TildeToken, a: V, b: V)
    requires !IsX(t.cv.major)
    requires api.newVersion(CvText(TildeLower(t))) == Some(a)
    requires api.newVersion(CvText(TildeUpper(t))) == Some(b)
    ensures Assemble(api, TildeExpansion(t))
            == Success(Constraints([[Clause(GreaterEqual, a, false), Clause(Less, b, false)]]))
    ensures forall v :: Satisfied(api, Constraints([[Clause(GreaterEqual, a, false), Clause(Less, b, false)]]), v)
                        <==> api.compare(v, a) >= 0 && api.compare(v, b) == -1
  {
    TildeWindow(t);
    TildeLowerBound(t);
    TildeUpperBound(t);
    ParseWindow(api, TildeLower(t), TildeUpper(t), a, b);
    WindowHolds(api, a, b);
  }

  /** A tilde match with a wildcard major accepts exactly the versions at least 0.0.0. */
  lemma TildeAnyMeaning<V>(api: VersionApi<V>, t: TildeToken, z: V)
    requires IsX(t.cv.major) && api.newVersion("0.0.0") == Some(z)
    ensures Assemble(api, TildeExpansion(t)) == Success(Constraints([[Clause(GreaterEqual, z, false)]]))
    ensures forall v :: Satisfied(api, Constraints([[Clause(GreaterEqual, z, false)]]), v) <==> api.compare(v, z) >= 0
  {
    AnyVersionMeaning(api, z);
  }

  /** The upper clause ` <= <cv>` of a range. */
  function AtMost(cv: Cv): ClauseMatch
  {
    ClauseMatch(" ", "<=", " ", cv, "")
  }

  /** A range expansion splits at `,` into its two clauses. */
  lemma RangeClauses(r: RangeMatch, ca: Cv, cb: Cv)
    requires ValidCv(ca) && ValidCv(cb) && r.from == CvText(ca) && r.to == CvText(cb)
    ensures AllValid([AtLeast(ca), AtMost(cb)])
    ensures Split(RangeExpansion(r), ",") == Texts([AtLeast(ca), AtMost(cb)])
  {
    var m1, m2 := AtLeast(ca), AtMost(cb);
    assert ClauseText(m1) + "," + ClauseText(m2) == RangeExpansion(r) by {
      assert ClauseText(m1) == ">= " + r.from;
      assert ClauseText(m2) == " <= " + r.to;
    }
    TwoClauses(m1, m2);
  }

  /**
   * A hyphen range between two version texts accepts exactly the versions
   * between the two bounds, both included. A wildcard endpoint is filled
   * with zeros and marks its clause dirty, as for any clause.
   */
  lemma RangeMeaning<V>(api: VersionApi<V>, r: RangeMatch, ca: Cv, cb: Cv, a: V, b: V)
    requires ValidCv(ca) && ValidCv(cb) && r.from == CvText(ca) && r.to == CvText(cb)
    requires api.newVersion(BoundText(ca).0) == Some(a) && api.newVersion(BoundText(cb).0) == Some(b)
    ensures Assemble(api, RangeExpansion(r))
            == Success(Constraints([[Clause(GreaterEqual, a, BoundText(ca).1), Clause(LessEqual, b, BoundText(cb).1)]]))
    ensures forall v :: Satisfied(api, Constraints([[Clause(GreaterEqual, a, BoundText(ca).1), Clause(LessEqual, b, BoundText(cb).1)]]), v)
                        <==> api.compare(v, a) >= 0 && api.compare(v, b) <= 0
  {
    var text := RangeExpansion(r);
    var ms := [AtLeast(ca), AtMost(cb)];
    RangeClauses(r, ca, cb);
    var c1 := Clause(GreaterEqual, a, BoundText(ca).1);
    var c2 := Clause(LessEqual, b, BoundText(cb).1);
    var rs := ParseEach(api, Texts(ms));
    OperatorTable();
    assert rs[0] == Success(c1) by {
      ParseConstraintCases(api, ClauseText(ms[0]));
    }
    assert rs[1] == Success(c2) by {
      ParseConstraintCases(api, ClauseText(ms[1]));
    }
    CollectPair(rs, c1, c2);
    assert '|' !in text by {
      ClausesAvoidBar(text, ms);
    }
    SingleGroup(api, text, [c1, c2]);
    IntervalHolds(api, a, b, BoundText(ca).1, BoundText(cb).1);
  }
}
