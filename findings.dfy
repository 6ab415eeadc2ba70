/**
 * Two inputs on which constraints.go does not do what it evidently means to,
 * each stated against the code as written.
 */
module Findings {
  import opened Wrappers
  import opened StringOps
  import opened Grammar
  import opened Rewrite
  import opened Expansions
  import opened Constraints

  /**
   * The matches the range pattern finds in "1-2 - 3 || 1-2": "1-2 - 3 " (from
   * "1-2", the prerelease "2" being part of the first version, to "3") and
   * " 1-2" (from "1" to "2").
   */
  function RangeExample(): seq<Segment<RangeMatch>>
  {
    [Hit(RangeMatch("", "1-2", " ", " ", "3", " ")), Lit("||"), Hit(RangeMatch(" ", "1", "", "", "2", ""))]
  }

  /**
   * `rewriteRange` replaces the first occurrence of each match text in the
   * current string (constraints.go:206). After the first expansion the text
   * " 1-2" also occurs inside ">= 1-2", so the second expansion lands there
   * instead of after "||", where the match was found.
   */
  lemma RangeReplaceMisplaced()
    ensures Reads(RangeExample(), RangeEdit, "1-2 - 3 || 1-2")
    ensures ReplaceEach("1-2 - 3 || 1-2", EditsOf(Hits(RangeExample()), RangeEdit)) == ">=>= 1, <= 2, <= 3|| 1-2"
    ensures After(PiecesOf(RangeExample(), RangeEdit)) == ">= 1-2, <= 3||>= 1, <= 2"
  {
    var e1 := Edit("1-2 - 3 ", ">= 1-2, <= 3");
    var e2 := Edit(" 1-2", ">= 1, <= 2");
    ExampleMatches(e1, e2);
    ExampleTexts(e1, e2);
    ExampleReplacements(e1, e2, "1-2 - 3 || 1-2");
  }

  lemma ExampleMatches(e1: Edit, e2: Edit)
    requires e1 == Edit("1-2 - 3 ", ">= 1-2, <= 3") && e2 == Edit(" 1-2", ">= 1, <= 2")
    ensures PiecesOf(RangeExample(), RangeEdit) == [Swap(e1), Keep("||"), Swap(e2)]
    ensures EditsOf(Hits(RangeExample()), RangeEdit) == [e1, e2]
  {
    var segs := RangeExample();
    var g0, g1, g2 := segs[0], segs[1], segs[2];
    assert RangeEdit(g0.m) == e1 by {
      assert RangeText(g0.m) == e1.from;
    }
    assert RangeEdit(g2.m) == e2 by {
      assert RangeText(g2.m) == e2.from;
    }
    ExamplePieces(g0, g1, g2);
    ExampleEdits(g0.m, g2.m);
    assert Hits(segs) == [g0.m, g2.m] by {
      assert segs == [g0, g1, g2];
    }
  }

  lemma ExamplePieces(g0: Segment<RangeMatch>, g1: Segment<RangeMatch>, g2: Segment<RangeMatch>)
    requires g0.Hit? && g1 == Lit("||") && g2.Hit?
    ensures PiecesOf([g0, g1, g2], RangeEdit) == [Swap(RangeEdit(g0.m)), Keep("||"), Swap(RangeEdit(g2.m))]
    ensures Hits([g0, g1, g2]) == [g0.m, g2.m]
  {
    assert [] + [g0] == [g0] && [g0] + [g1] == [g0, g1] && [g0, g1] + [g2] == [g0, g1, g2];
    SegmentsSnoc([], g0, RangeEdit);
    SegmentsSnoc([g0], g1, RangeEdit);
    SegmentsSnoc([g0, g1], g2, RangeEdit);
    assert [g0, g1, g2][..2] == [g0, g1];
    assert [g0, g1][..1] == [g0];
  }

  lemma ExampleEdits(m0: RangeMatch, m2: RangeMatch)
    ensures EditsOf([m0, m2], RangeEdit) == [RangeEdit(m0), RangeEdit(m2)]
  {
    assert [] + [m0] == [m0] && [m0] + [m2] == [m0, m2];
    EditsOfSnoc([], m0, RangeEdit);
    EditsOfSnoc([m0], m2, RangeEdit);
  }

  lemma ExampleTexts(e1: Edit, e2: Edit)
    requires e1 == Edit("1-2 - 3 ", ">= 1-2, <= 3") && e2 == Edit(" 1-2", ">= 1, <= 2")
    ensures Before([Swap(e1), Keep("||"), Swap(e2)]) == "1-2 - 3 || 1-2"
    ensures After([Swap(e1), Keep("||"), Swap(e2)]) == ">= 1-2, <= 3||>= 1, <= 2"
  {
    ThreePieces(e1, "||", e2);
    assert e1.from + "||" + e2.from == "1-2 - 3 || 1-2";
    assert e1.to + "||" + e2.to == ">= 1-2, <= 3||>= 1, <= 2";
  }

  /** A swap, a kept text and a swap, read before and after. */
  lemma ThreePieces(e1: Edit, t: string, e2: Edit)
    ensures Before([Swap(e1), Keep(t), Swap(e2)]) == e1.from + t + e2.from
    ensures After([Swap(e1), Keep(t), Swap(e2)]) == e1.to + t + e2.to
  {
    var p0, p1, p2 := Swap(e1), Keep(t), Swap(e2);
    assert [] + [p0] == [p0] && [p0] + [p1] == [p0, p1] && [p0, p1] + [p2] == [p0, p1, p2];
    PiecesSnoc([], p0);
    PiecesSnoc([p0], p1);
    PiecesSnoc([p0, p1], p2);
  }

  lemma ExampleReplacements(e1: Edit, e2: Edit, i: string)
    requires e1 == Edit("1-2 - 3 ", ">= 1-2, <= 3") && e2 == Edit(" 1-2", ">= 1, <= 2")
    requires i == e1.from + "|| 1-2"
    ensures ReplaceEach(i, [e1, e2]) == ">=>= 1, <= 2, <= 3|| 1-2"
  {
    assert [] + [e1] == [e1] && [e1] + [e2] == [e1, e2];
    ReplaceEachSnoc(i, [], e1);
    ReplaceEachSnoc(i, [e1], e2);
    var mid := ExampleFirst(e1, "|| 1-2");
    ExampleTexts2();
    ExampleSecond(e2, mid, ", <= 3|| 1-2");
  }

  lemma ExampleFirst(e1: Edit, tail: string) returns (mid: string)
    requires e1 == Edit("1-2 - 3 ", ">= 1-2, <= 3")
    ensures mid == ReplaceFirst(e1.from + tail, e1.from, e1.to) == e1.to + tail
  {
    SwapSite("", e1, tail, '1');
    assert "" + (e1.from + tail) == e1.from + tail;
    assert "" + e1.to + tail == e1.to + tail;
    mid := e1.to + tail;
  }

  lemma ExampleSecond(e2: Edit, mid: string, b: string)
    requires e2 == Edit(" 1-2", ">= 1, <= 2") && mid == ">=" + (e2.from + b)
    ensures ReplaceFirst(mid, e2.from, e2.to) == ">=" + e2.to + b
  {
    SwapSite(">=", e2, b, ' ');
  }

  lemma ExampleTexts2()
    ensures ">= 1-2, <= 3" + "|| 1-2" == ">=" + (" 1-2" + ", <= 3|| 1-2")
    ensures ">=" + ">= 1, <= 2" + ", <= 3|| 1-2" == ">=>= 1, <= 2, <= 3|| 1-2"
  {
  }

  /**
   * As written, the caret pattern's major component `[0-9|x|X|\*]+` runs over
   * the `||` of "^1||^2", capturing "1||": not a wildcard and not a number,
   * so `strconv.ParseInt` fails and `rewriteCarets` panics (constraints.go:235).
   */
  lemma CaretSwallowsOrAsWritten()
    ensures Span(CvCharAsWritten, "1||^2") == 3
    ensures !IsX("1||") && !ParsesInt32("1||")
  {
    SpanOf(CvCharAsWritten, "1||", "^2");
    assert "1||" + "^2" == "1||^2";
    IsXExactly("1||");
    assert !IsDigit("1||"[1]);
  }

  /** With the intended class the major component of "^1||^2" is "1". */
  lemma CaretStopsAtOr()
    ensures Span(CvChar, "1||^2") == 1
  {
    SpanOf(CvChar, "1", "||^2");
    assert "1" + "||^2" == "1||^2";
  }

  /**
   * With the intended class, every clause holding a '|' is improper: no
   * operator, white space or version character is a '|'. As written, the
   * class also admits '|', so that `1.x.|` matches with the patch "|" and
   * `parseConstraint` makes it `= 1.0.0`, dirty (constraints.go:129-137).
   */
  lemma BarClauseImproper<V>(api: VersionApi<V>, c: string)
    requires '|' in c
    ensures ParseConstraint(api, c) == Failure(Improper(c))
  {
    BarNoClause(c);
    ParseConstraintCases(api, c);
  }

  /** No well-formed clause reads as a text holding '|'. */
  lemma BarNoClause(c: string)
    requires '|' in c
    ensures !exists m :: ValidClause(m) && ClauseText(m) == c
  {
    assert !IsSpace('|') && !In(OpChar, '|') && !CvTextChar('|');
    forall m | ValidClause(m) ensures ClauseText(m) != c {
      ClauseAvoids(m, '|');
    }
  }
}
