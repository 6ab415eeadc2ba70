/**
 * `NewConstraint` end to end (constraints.go:19-45, 183-316): what the three
 * rewrite passes leave of a text, and what the constraint built from a lone
 * caret, tilde or hyphen range accepts.
 *
 * The regular expressions are the `Matcher` parameter; each lemma states
 * what it needs of their answers (which matches they report for the text),
 * and `Honest` makes every answer a segmentation of its input.
 */
module Pipeline {
  import opened Wrappers
  import opened StringOps
  import opened Grammar
  import opened Rewrite
  import opened Expansions
  import opened Constraints
  import opened Semantics

  /** A caret pass over a text without '^' finds nothing and changes nothing. */
  lemma CaretPassUnmarked(i: string, segs: seq<Segment<CaretCv>>)
    requires Reads(segs, CaretEdit, i) && '^' !in i
    ensures Hits(segs) == [] && CaretPass(i, segs) == i
  {
    forall cv: CaretCv ensures '^' in CaretEdit(cv).from {
      assert CaretEdit(cv).from[0] == '^';
    }
    NoMarkerNoHits(segs, CaretEdit, '^');
  }

  /** A tilde pass over a text without '~' finds nothing and changes nothing. */
  lemma TildePassUnmarked(i: string, segs: seq<Segment<TildeToken>>)
    requires Reads(segs, TildeEdit, i) && '~' !in i
    ensures Hits(segs) == [] && TildePass(i, segs) == i
  {
    forall t: TildeToken ensures '~' in TildeEdit(t).from {
      assert TildeEdit(t).from[0] == '~';
    }
    NoMarkerNoHits(segs, TildeEdit, '~');
  }

  /** A range pass whose expression matches nothing leaves the text as it is. */
  lemma RangePassEmpty(mt: Matcher, c: string)
    requires Honest(mt) && Hits(mt.ranges(c)) == []
    ensures After(PiecesOf(mt.ranges(c), RangeEdit)) == c
  {
    assert Reads(mt.ranges(c), RangeEdit, c);
    NoHitsSame(mt.ranges(c), RangeEdit);
  }

  /**
   * The range pass as written and the range pass that expands in place give
   * the same rewritten text whenever every range match text first occurs at
   * its own site, and in particular when there is no range match.
   */
  lemma AsWrittenAgrees(mt: Matcher, c: string)
    requires Honest(mt)
    ensures InPlace(PiecesOf(mt.ranges(c), RangeEdit), "") ==> RewrittenAsWritten(mt, c) == Rewritten(mt, c)
    ensures Hits(mt.ranges(c)) == [] ==> RewrittenAsWritten(mt, c) == Rewritten(mt, c)
  {
    assert Reads(mt.ranges(c), RangeEdit, c);
    RangeSiteWise(c, mt.ranges(c));
    if Hits(mt.ranges(c)) == [] {
      RangePassEmpty(mt, c);
    }
  }

  /**
   * A text with no hyphen range, no '^' and no '~' reaches the parser
   * unchanged: `NewConstraint` is then the `||`/`,` assembly of the text
   * itself.
   */
  lemma PlainText<V>(api: VersionApi<V>, mt: Matcher, c: string)
    requires Honest(mt) && Hits(mt.ranges(c)) == [] && '^' !in c && '~' !in c
    ensures Rewritten(mt, c) == c && RewrittenAsWritten(mt, c) == c
    ensures Compile(api, mt, c) == Assemble(api, c)
  {
    AsWrittenAgrees(mt, c);
    RangePassEmpty(mt, c);
    assert Reads(mt.carets(c), CaretEdit, c);
    CaretPassUnmarked(c, mt.carets(c));
    assert Reads(mt.tildes(c), TildeEdit, c);
    TildePassUnmarked(c, mt.tildes(c));
  }

  /** When the caret expression reports the whole text as one match, the passes leave its expansion. */
  lemma CaretAlone(mt: Matcher, cv: CaretCv)
    requires Honest(mt)
    requires Hits(mt.ranges("^" + CvText(cv))) == []
    requires mt.carets("^" + CvText(cv)) == [Hit(cv)]
    ensures Rewritten(mt, "^" + CvText(cv)) == CaretExpansion(cv)
  {
    var c := "^" + CvText(cv);
    RangePassEmpty(mt, c);
    var segs: seq<Segment<CaretCv>> := [Hit(cv)];
    assert Reads(segs, CaretEdit, c) by {
      assert PiecesOf(segs, CaretEdit) == [Swap(CaretEdit(cv))];
    }
    CaretSiteWise(c, segs);
    assert After(PiecesOf(segs, CaretEdit)) == CaretExpansion(cv) by {
      assert PiecesOf(segs, CaretEdit) == [Swap(CaretEdit(cv))];
    }
    var k := CaretExpansion(cv);
    assert Reads(mt.tildes(k), TildeEdit, k);
    TildePassUnmarked(k, mt.tildes(k));
  }

  /** A tilde token's text holds no '^'. */
  lemma TildeTextUnmarked(t: TildeMatch)
    requires ValidCv(t.cv)
    ensures '^' !in TildeText(t)
  {
    CvTextChars(t.cv);
    var p := "~" + (if t.arrow then ">" else "");
    var c := TildeText(t);
    assert c == p + CvText(t.cv);
    forall i | 0 <= i < |c| ensures c[i] != '^' {
      if |p| <= i {
        assert c[i] == CvText(t.cv)[i - |p|];
      }
    }
  }

  /** When the tilde expression reports the whole text as one match, the passes leave its expansion. */
  lemma TildeAlone(mt: Matcher, t: TildeToken)
    requires Honest(mt)
    requires Hits(mt.ranges(TildeText(t))) == []
    requires mt.tildes(TildeText(t)) == [Hit(t)]
    ensures Rewritten(mt, TildeText(t)) == TildeExpansion(t)
  {
    var c := TildeText(t);
    RangePassEmpty(mt, c);
    TildeTextUnmarked(t);
    assert Reads(mt.carets(c), CaretEdit, c);
    CaretPassUnmarked(c, mt.carets(c));
    var segs: seq<Segment<TildeToken>> := [Hit(t)];
    assert Reads(segs, TildeEdit, c) by {
      assert PiecesOf(segs, TildeEdit) == [Swap(TildeEdit(t))];
    }
    TildeSiteWise(c, segs);
    assert After(PiecesOf(segs, TildeEdit)) == TildeExpansion(t) by {
      assert PiecesOf(segs, TildeEdit) == [Swap(TildeEdit(t))];
    }
  }

  /** A range expansion between two version texts holds neither '^' nor '~'. */
  lemma RangeUnmarked(r: RangeMatch, ca: Cv, cb: Cv)
    requires ValidCv(ca) && ValidCv(cb) && r.from == CvText(ca) && r.to == CvText(cb)
    ensures '^' !in RangeExpansion(r) && '~' !in RangeExpansion(r)
  {
    CvTextChars(ca);
    CvTextChars(cb);
    var e := RangeExpansion(r);
    assert e == ">= " + r.from + ", <= " + r.to;
    forall i | 0 <= i < |e| ensures e[i] != '^' && e[i] != '~' {
      if 3 <= i < 3 + |r.from| {
        assert e[i] == r.from[i - 3];
      } else if 3 + |r.from| + 5 <= i {
        assert e[i] == r.to[i - 3 - |r.from| - 5];
      }
    }
  }

  /** When the range expression reports the whole text as one match, the passes leave its expansion. */
  lemma RangeAlone(mt: Matcher, r: RangeMatch, ca: Cv, cb: Cv)
    requires Honest(mt)
    requires ValidCv(ca) && ValidCv(cb) && r.from == CvText(ca) && r.to == CvText(cb)
    requires mt.ranges(RangeText(r)) == [Hit(r)]
    ensures Rewritten(mt, RangeText(r)) == RangeExpansion(r)
    ensures RewrittenAsWritten(mt, RangeText(r)) == RangeExpansion(r)
  {
    var segs: seq<Segment<RangeMatch>> := [Hit(r)];
    var e := RangeExpansion(r);
    assert After(PiecesOf(segs, RangeEdit)) == e && InPlace(PiecesOf(segs, RangeEdit), "") by {
      assert PiecesOf(segs, RangeEdit) == [Swap(RangeEdit(r))];
      assert PiecesOf(segs, RangeEdit)[..0] == [];
    }
    AsWrittenAgrees(mt, RangeText(r));
    RangeUnmarked(r, ca, cb);
    assert Reads(mt.carets(e), CaretEdit, e);
    CaretPassUnmarked(e, mt.carets(e));
    assert Reads(mt.tildes(e), TildeEdit, e);
    TildePassUnmarked(e, mt.tildes(e));
  }

  /** `NewConstraint("^M.m.p")` with a numeric major accepts exactly `[lower, M+1)`. */
  lemma CompileCaret<V>(api: VersionApi<V>, mt: Matcher, cv: CaretCv, a: V, b: V)
    requires Honest(mt)
    requires Hits(mt.ranges("^" + CvText(cv))) == []
    requires mt.carets("^" + CvText(cv)) == [Hit(cv)]
    requires !IsX(cv.major)
    requires api.newVersion(CvText(CaretLower(cv))) == Some(a)
    requires api.newVersion(CvText(CaretUpper(cv))) == Some(b)
    ensures Compile(api, mt, "^" + CvText(cv))
            == Success(Constraints([[Clause(GreaterEqual, a, false), Clause(Less, b, false)]]))
    ensures Assemble(api, RewrittenAsWritten(mt, "^" + CvText(cv))) == Compile(api, mt, "^" + CvText(cv))
    ensures forall v :: Satisfied(api, Compile(api, mt, "^" + CvText(cv)).value, v)
                        <==> api.compare(v, a) >= 0 && api.compare(v, b) == -1
  {
    CaretAlone(mt, cv);
    AsWrittenAgrees(mt, "^" + CvText(cv));
    CaretMeaning(api, cv, a, b);
  }

  /** `NewConstraint("~M.m.p")` (or `~>`) with a numeric major accepts exactly `[lower, upper)`. */
  lemma CompileTilde<V>(api: VersionApi<V>, mt: Matcher, t: TildeToken, a: V, b: V)
    requires Honest(mt)
    requires Hits(mt.ranges(TildeText(t))) == []
    requires mt.tildes(TildeText(t)) == [Hit(t)]
    requires !IsX(t.cv.major)
    requires api.newVersion(CvText(TildeLower(t))) == Some(a)
    requires api.newVersion(CvText(TildeUpper(t))) == Some(b)
    ensures Compile(api, mt, TildeText(t))
            == Success(Constraints([[Clause(GreaterEqual, a, false), Clause(Less, b, false)]]))
    ensures Assemble(api, RewrittenAsWritten(mt, TildeText(t))) == Compile(api, mt, TildeText(t))
    ensures forall v :: Satisfied(api, Compile(api, mt, TildeText(t)).value, v)
                        <==> api.compare(v, a) >= 0 && api.compare(v, b) == -1
  {
    TildeAlone(mt, t);
    AsWrittenAgrees(mt, TildeText(t));
    TildeMeaning(api, t, a, b);
  }

  /** `NewConstraint("A - B")` accepts exactly the closed interval `[A, B]`. */
  lemma CompileRange<V>(api: VersionApi<V>, mt: Matcher, r: RangeMatch, ca: Cv, cb: Cv, a: V, b: V)
    requires Honest(mt)
    requires ValidCv(ca) && ValidCv(cb) && r.from == CvText(ca) && r.to == CvText(cb)
    requires mt.ranges(RangeText(r)) == [Hit(r)]
    requires api.newVersion(BoundText(ca).0) == Some(a) && api.newVersion(BoundText(cb).0) == Some(b)
    ensures Compile(api, mt, RangeText(r))
            == Success(Constraints([[Clause(GreaterEqual, a, BoundText(ca).1), Clause(LessEqual, b, BoundText(cb).1)]]))
    ensures Assemble(api, RewrittenAsWritten(mt, RangeText(r))) == Compile(api, mt, RangeText(r))
    ensures forall v :: Satisfied(api, Compile(api, mt, RangeText(r)).value, v)
                        <==> api.compare(v, a) >= 0 && api.compare(v, b) <= 0
  {
    RangeAlone(mt, r, ca, cb);
    RangeMeaning(api, r, ca, cb, a, b);
  }

  /** `NewConstraint("^*")`, and any caret with a wildcard major, accepts exactly the versions at least 0.0.0. */
  lemma CompileCaretAny<V>(api: VersionApi<V>, mt: Matcher, cv: CaretCv, z: V)
    requires Honest(mt)
    requires Hits(mt.ranges("^" + CvText(cv))) == []
    requires mt.carets("^" + CvText(cv)) == [Hit(cv)]
    requires IsX(cv.major) && api.newVersion("0.0.0") == Some(z)
    ensures Compile(api, mt, "^" + CvText(cv)) == Success(Constraints([[Clause(GreaterEqual, z, false)]]))
    ensures Assemble(api, RewrittenAsWritten(mt, "^" + CvText(cv))) == Compile(api, mt, "^" + CvText(cv))
    ensures forall v :: Satisfied(api, Compile(api, mt, "^" + CvText(cv)).value, v) <==> api.compare(v, z) >= 0
  {
    CaretAlone(mt, cv);
    AsWrittenAgrees(mt, "^" + CvText(cv));
    CaretAnyMeaning(api, cv, z);
  }

  /** `NewConstraint("~*")`, and any tilde with a wildcard major, accepts exactly the versions at least 0.0.0. */
  lemma CompileTildeAny<V>(api: VersionApi<V>, mt: Matcher, t: TildeToken, z: V)
    requires Honest(mt)
    requires Hits(mt.ranges(TildeText(t))) == []
    requires mt.tildes(TildeText(t)) == [Hit(t)]
    requires IsX(t.cv.major) && api.newVersion("0.0.0") == Some(z)
    ensures Compile(api, mt, TildeText(t)) == Success(Constraints([[Clause(GreaterEqual, z, false)]]))
    ensures Assemble(api, RewrittenAsWritten(mt, TildeText(t))) == Compile(api, mt, TildeText(t))
    ensures forall v :: Satisfied(api, Compile(api, mt, TildeText(t)).value, v) <==> api.compare(v, z) >= 0
  {
    TildeAlone(mt, t);
    AsWrittenAgrees(mt, TildeText(t));
    TildeAnyMeaning(api, t, z);
  }
}
