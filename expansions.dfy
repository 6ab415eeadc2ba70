/**
 * The shape of the caret and tilde expansions (the tables at
 * constraints.go:212-217 and 265-270): each expansion is a `,`-separated
 * list of well-formed comparator clauses, `>=0.0.0` for a wildcard major and
 * otherwise a window, a lower bound `>=` and an upper bound `<`, neither of
 * which holds a wildcard any more.
 */
module Expansions {
  import opened Wrappers
  import opened StringOps
  import opened Grammar
  import opened Rewrite

  /** A version token with neither 'v', prerelease nor build metadata. */
  function Plain(major: string, minor: Option<string>, patch: Option<string>): Cv
  {
    Cv(false, major, minor, patch, None, None)
  }

  /** `>=0.0.0`, what a wildcard major expands to. */
  function AnyVersion(): ClauseMatch
  {
    ClauseMatch("", ">=", "", Plain("0", Some("0"), Some("0")), "")
  }

  /** The lower bound clause `>= <cv>` that opens an expansion. */
  function AtLeast(cv: Cv): ClauseMatch
  {
    ClauseMatch("", ">=", " ", cv, "")
  }

  /** The upper bound clause ` < <cv>` after the comma. */
  function Below(cv: Cv): ClauseMatch
  {
    ClauseMatch(" ", "<", " ", cv, "")
  }

  /** The texts of a list of clauses. */
  function Texts(ms: seq<ClauseMatch>): (ts: seq<string>)
    ensures |ts| == |ms| && forall k :: 0 <= k < |ms| ==> ts[k] == ClauseText(ms[k])
  {
    seq(|ms|, k requires 0 <= k < |ms| => ClauseText(ms[k]))
  }

  /** The two clauses `>= lo, < hi` of a window. */
  function Window(lo: Cv, hi: Cv): seq<ClauseMatch>
  {
    [AtLeast(lo), Below(hi)]
  }

  /** The comparators of an expansion are well-formed clauses. */
  predicate AllValid(ms: seq<ClauseMatch>)
  {
    forall k :: 0 <= k < |ms| ==> ValidClause(ms[k])
  }

  /** A character that is neither white space, an operator character nor a version character stays out of a clause. */
  lemma ClauseAvoids(m: ClauseMatch, c: char)
    requires ValidClause(m) && !IsSpace(c) && !In(OpChar, c) && !CvTextChar(c)
    ensures c !in ClauseText(m)
  {
    CvTextChars(m.cv);
    OpTokenChars(m.op);
  }

  /** `>=0.0.0` is one well-formed clause. */
  lemma AnyVersionClauses()
    ensures AllValid([AnyVersion()])
    ensures Split(">=0.0.0", ",") == Texts([AnyVersion()])
  {
    assert All(CvChar, "0");
    assert ClauseText(AnyVersion()) == ">=0.0.0";
    ClauseAvoids(AnyVersion(), ',');
    SplitWithout(">=0.0.0", ",");
  }

  /** Two well-formed clauses joined by `,` split back into the two. */
  lemma TwoClauses(a: ClauseMatch, b: ClauseMatch)
    requires ValidClause(a) && ValidClause(b)
    ensures Split(ClauseText(a) + "," + ClauseText(b), ",") == Texts([a, b])
  {
    ClauseAvoids(a, ',');
    ClauseAvoids(b, ',');
    SplitPair(ClauseText(a), ",", ClauseText(b));
  }

  /** `>= lo, < hi` reads back as the two clauses of the window. */
  lemma WindowClauses(lo: Cv, hi: Cv)
    requires ValidCv(lo) && ValidCv(hi)
    ensures AllValid(Window(lo, hi))
    ensures Split(">= " + CvText(lo) + ", < " + CvText(hi), ",") == Texts(Window(lo, hi))
  {
    var a, b := AtLeast(lo), Below(hi);
    assert ClauseText(a) + "," + ClauseText(b) == ">= " + CvText(lo) + ", < " + CvText(hi) by {
      assert ClauseText(a) == ">= " + CvText(lo);
      assert ClauseText(b) == " < " + CvText(hi);
    }
    TwoClauses(a, b);
  }

  /** A wildcard-free version token: what a rewritten bound is. */
  predicate Concrete(cv: Cv)
  {
    ValidCv(cv) && !IsX(cv.major) && !IsX(Bare(cv.minor)) && !IsX(Bare(cv.patch))
  }

  /** `0` and `""` are not wildcards, and a number's digits are not one either. */
  lemma NotWildcards(n: nat)
    ensures !IsX("0") && !IsX("") && !IsX(NatToString(n))
    ensures All(CvChar, "0") && All(CvChar, NatToString(n))
  {
    IsXExactly("0");
    IsXExactly("");
    IsXExactly(NatToString(n));
  }

  /** The major component of a match that is not a wildcard is a number. */
  lemma NumericMajor(cv: Cv)
    requires ValidCv(cv) && !IsX(cv.major) && (IsX(cv.major) || ParsesInt32(cv.major))
    ensures IsDigits(cv.major)
  {
  }

  /**
   * The lower bound of a caret window: the major as written, a wildcard
   * minor becomes `0` with no patch, otherwise a wildcard patch becomes
   * `0`; the prerelease stays and 'v' and build metadata go.
   */
  function CaretLower(cv: CaretCv): Cv
  {
    if IsX(Bare(cv.minor)) then Cv(false, cv.major, Some("0"), None, cv.pre, None)
    else if IsX(Bare(cv.patch)) then Cv(false, cv.major, cv.minor, Some("0"), cv.pre, None)
    else Cv(false, cv.major, cv.minor, cv.patch, cv.pre, None)
  }

  /**
   * The lower bound of a caret window is a wildcard-free version token that
   * keeps the major and the prerelease: a wildcard minor becomes `0` with
   * no patch, otherwise a wildcard patch becomes `0`, and what is not a
   * wildcard is kept.
   */
  lemma CaretLowerBound(cv: CaretCv)
    requires !IsX(cv.major)
    ensures var lo := CaretLower(cv);
            && Concrete(lo) && !lo.v && lo.build.None?
            && lo.major == cv.major && lo.pre == cv.pre
            && (IsX(Bare(cv.minor)) ==> lo.minor == Some("0") && lo.patch.None?)
            && (!IsX(Bare(cv.minor)) ==> lo.minor == cv.minor)
            && (!IsX(Bare(cv.minor)) && IsX(Bare(cv.patch)) ==> lo.patch == Some("0"))
            && (!IsX(Bare(cv.minor)) && !IsX(Bare(cv.patch)) ==> lo.patch == cv.patch)
  {
    NotWildcards(0);
  }

  /** The upper bound of a caret window: the bare major plus one, whatever the major is, 0 included. */
  function CaretUpper(cv: CaretCv): Cv
    requires !IsX(cv.major)
  {
    NumericMajor(cv);
    Plain(NatToString(DigitsValue(cv.major) + 1), None, None)
  }

  /** The caret upper bound is the version `M+1` alone, whatever `M` is, 0 included. */
  lemma CaretUpperBound(cv: CaretCv)
    requires !IsX(cv.major)
    ensures var hi := CaretUpper(cv);
            && Concrete(hi) && hi.minor.None? && hi.patch.None? && hi.pre.None?
            && IsDigits(hi.major) && DigitsValue(hi.major) == DigitsValue(cv.major) + 1
  {
    NumericMajor(cv);
    var n := DigitsValue(cv.major) + 1;
    NotWildcards(n);
    NatToStringValue(n);
  }

  /** The clauses of a caret expansion. */
  function CaretClauses(cv: CaretCv): seq<ClauseMatch>
  {
    if IsX(cv.major) then [AnyVersion()] else Window(CaretLower(cv), CaretUpper(cv))
  }

  /** Concatenation regrouped: a version text of four parts between a prefix and a suffix. */
  lemma Regroup(p: string, m: string, a: string, b: string, c: string, q: string)
    ensures p + m + a + b + c + q == p + (m + a + b + c) + q
  {
  }

  /** The caret expansion is `>= lower, < upper`. */
  lemma CaretWindow(cv: CaretCv)
    requires !IsX(cv.major)
    ensures CaretExpansion(cv) == ">= " + CvText(CaretLower(cv)) + ", < " + CvText(CaretUpper(cv))
  {
    var lo, hi := CaretLower(cv), CaretUpper(cv);
    var u := hi.major;
    assert CvText(hi) == u by { BareText(u, None, None, None); }
    assert CaretExpansion(cv) == ">= " + CvText(lo) + (", < " + u) by {
      NumericMajor(cv);
      if IsX(Bare(cv.minor)) {
        CaretWildMinor(cv);
      } else if IsX(Bare(cv.patch)) {
        CaretWildPatch(cv);
      } else {
        CaretExact(cv);
      }
    }
    assert ">= " + CvText(lo) + (", < " + u) == ">= " + CvText(lo) + ", < " + u;
  }

  /** `^M.x`: the lower bound is `M.0` and the prerelease. */
  lemma CaretWildMinor(cv: CaretCv)
    requires !IsX(cv.major) && IsDigits(cv.major) && IsX(Bare(cv.minor))
    ensures CaretExpansion(cv)
            == ">= " + CvText(Cv(false, cv.major, Some("0"), None, cv.pre, None))
               + (", < " + NatToString(DigitsValue(cv.major) + 1))
  {
    var upper := ", < " + NatToString(DigitsValue(cv.major) + 1);
    BareText(cv.major, Some("0"), None, cv.pre);
    assert Tagged('.', Some("0")) == ".0";
    Regroup(">= ", cv.major, ".0", "", Tagged('-', cv.pre), upper);
    assert ">= " + cv.major + ".0" + "" == ">= " + cv.major + ".0";
  }

  /** `^M.N.x`: the lower bound is `M.N.0` and the prerelease. */
  lemma CaretWildPatch(cv: CaretCv)
    requires !IsX(cv.major) && IsDigits(cv.major) && !IsX(Bare(cv.minor)) && IsX(Bare(cv.patch))
    ensures CaretExpansion(cv)
            == ">= " + CvText(Cv(false, cv.major, cv.minor, Some("0"), cv.pre, None))
               + (", < " + NatToString(DigitsValue(cv.major) + 1))
  {
    var upper := ", < " + NatToString(DigitsValue(cv.major) + 1);
    BareText(cv.major, cv.minor, Some("0"), cv.pre);
    assert Tagged('.', Some("0")) == ".0";
    Regroup(">= ", cv.major, Tagged('.', cv.minor), ".0", Tagged('-', cv.pre), upper);
  }

  /** `^M[.N[.P]]`: the lower bound is the version as written, without 'v' and build metadata. */
  lemma CaretExact(cv: CaretCv)
    requires !IsX(cv.major) && IsDigits(cv.major) && !IsX(Bare(cv.minor)) && !IsX(Bare(cv.patch))
    ensures CaretExpansion(cv)
            == ">= " + CvText(Cv(false, cv.major, cv.minor, cv.patch, cv.pre, None))
               + (", < " + NatToString(DigitsValue(cv.major) + 1))
  {
    var upper := ", < " + NatToString(DigitsValue(cv.major) + 1);
    BareText(cv.major, cv.minor, cv.patch, cv.pre);
    Regroup(">= ", cv.major, Tagged('.', cv.minor), Tagged('.', cv.patch), Tagged('-', cv.pre), upper);
  }

  /**
   * The caret pass writes, for every match, exactly the comparators of the
   * table at constraints.go:212-217: `>=0.0.0` for a wildcard major,
   * otherwise `>= lower` and `< M+1` with `lower` as `CaretLower` says.
   */
  lemma CaretExpansionClauses(cv: CaretCv)
    ensures AllValid(CaretClauses(cv))
    ensures Split(CaretExpansion(cv), ",") == Texts(CaretClauses(cv))
  {
    if IsX(cv.major) {
      AnyVersionClauses();
    } else {
      CaretWindow(cv);
      CaretLowerBound(cv);
      CaretUpperBound(cv);
      WindowClauses(CaretLower(cv), CaretUpper(cv));
    }
  }

  /**
   * The lower bound of a tilde window: an absent or wildcard minor gives
   * `M.0.0`, otherwise a wildcard patch becomes `0`; the prerelease stays
   * and 'v' and build metadata go.
   */
  function TildeLower(t: TildeToken): Cv
  {
    var cv := t.cv;
    if WholeMajor(cv) then Cv(false, cv.major, Some("0"), Some("0"), cv.pre, None)
    else if IsX(Bare(cv.patch)) then Cv(false, cv.major, cv.minor, Some("0"), cv.pre, None)
    else Cv(false, cv.major, cv.minor, cv.patch, cv.pre, None)
  }

  /**
   * The lower bound of a tilde window is a wildcard-free version token that
   * keeps the major and the prerelease: an absent or wildcard minor gives
   * `M.0.0`, otherwise a wildcard patch becomes `0`, and what is not a
   * wildcard is kept.
   */
  lemma TildeLowerBound(t: TildeToken)
    requires !IsX(t.cv.major)
    ensures var lo := TildeLower(t);
            && Concrete(lo) && !lo.v && lo.build.None?
            && lo.major == t.cv.major && lo.pre == t.cv.pre
            && (WholeMajor(t.cv) ==> lo.minor == Some("0") && lo.patch == Some("0"))
            && (!WholeMajor(t.cv) ==> lo.minor == t.cv.minor)
            && (!WholeMajor(t.cv) && IsX(Bare(t.cv.patch)) ==> lo.patch == Some("0"))
            && (!WholeMajor(t.cv) && !IsX(Bare(t.cv.patch)) ==> lo.patch == t.cv.patch)
  {
    NotWildcards(0);
  }

  /**
   * The upper bound of a tilde window: `(M+1).0.0` when the minor is absent
   * or a wildcard, otherwise `M.(N+1).0` with the major as written.
   */
  function TildeUpper(t: TildeToken): Cv
    requires !IsX(t.cv.major)
  {
    var cv := t.cv;
    if WholeMajor(cv) then
      NumericMajor(cv);
      Plain(NatToString(DigitsValue(cv.major) + 1), Some("0"), Some("0"))
    else Plain(cv.major, Some(NatToString(DigitsValue(Bare(cv.minor)) + 1)), Some("0"))
  }

  /**
   * The tilde upper bound is `(M+1).0.0` when the minor is absent or a
   * wildcard, and otherwise `M.(N+1).0` with the major as written.
   */
  lemma TildeUpperBound(t: TildeToken)
    requires !IsX(t.cv.major)
    ensures var hi := TildeUpper(t);
            && Concrete(hi) && hi.pre.None? && hi.patch == Some("0")
            && (WholeMajor(t.cv) ==>
                  && IsDigits(hi.major) && DigitsValue(hi.major) == DigitsValue(t.cv.major) + 1
                  && hi.minor == Some("0"))
            && (!WholeMajor(t.cv) ==>
                  && hi.major == t.cv.major && hi.minor.Some? && IsDigits(hi.minor.value)
                  && DigitsValue(hi.minor.value) == DigitsValue(Bare(t.cv.minor)) + 1)
  {
    var cv := t.cv;
    NotWildcards(0);
    if WholeMajor(cv) {
      NumericMajor(cv);
      var n := DigitsValue(cv.major) + 1;
      NotWildcards(n);
      NatToStringValue(n);
    } else {
      var n := DigitsValue(Bare(cv.minor)) + 1;
      NotWildcards(n);
      NatToStringValue(n);
    }
  }

  /** The clauses of a tilde expansion. */
  function TildeClauses(t: TildeToken): seq<ClauseMatch>
  {
    if IsX(t.cv.major) then [AnyVersion()] else Window(TildeLower(t), TildeUpper(t))
  }

  /** The tilde expansion is `>= lower, < upper`. */
  lemma TildeWindow(t: TildeToken)
    requires !IsX(t.cv.major)
    ensures TildeExpansion(t) == ">= " + CvText(TildeLower(t)) + ", < " + CvText(TildeUpper(t))
  {
    var cv := t.cv;
    var lo, hi := TildeLower(t), TildeUpper(t);
    var w := CvText(hi);
    assert TildeExpansion(t) == ">= " + CvText(lo) + (", < " + w) by {
      if WholeMajor(cv) {
        NumericMajor(cv);
        assert lo == Cv(false, cv.major, Some("0"), Some("0"), cv.pre, None);
        assert hi == Plain(NatToString(DigitsValue(cv.major) + 1), Some("0"), Some("0"));
        TildeWholeMajor(t);
      } else if IsX(Bare(cv.patch)) {
        assert lo == Cv(false, cv.major, cv.minor, Some("0"), cv.pre, None);
        assert hi == Plain(cv.major, Some(NatToString(DigitsValue(Bare(cv.minor)) + 1)), Some("0"));
        TildeWildPatch(t);
      } else {
        assert lo == Cv(false, cv.major, cv.minor, cv.patch, cv.pre, None);
        assert hi == Plain(cv.major, Some(NatToString(DigitsValue(Bare(cv.minor)) + 1)), Some("0"));
        TildeExact(t);
      }
    }
    assert ">= " + CvText(lo) + (", < " + w) == ">= " + CvText(lo) + ", < " + w;
  }

  /** Concatenation regrouped: four parts after a prefix. */
  lemma Regroup4(p: string, m: string, a: string, b: string, c: string)
    ensures p + m + a + b + c == p + (m + a + b + c)
  {
  }

  /** Concatenation regrouped into `a + (b + c + d) + (e + (f + g))`. */
  lemma Bracket7(a: string, b: string, c: string, d: string, e: string, f: string, g: string)
    ensures a + b + c + d + e + f + g == a + (b + c + d) + (e + (f + g))
  {
  }

  /** `~M`, `~M.x`: the window `M.0.0` to `(M+1).0.0`. */
  lemma TildeWholeMajor(t: TildeToken)
    requires !IsX(t.cv.major) && IsDigits(t.cv.major) && WholeMajor(t.cv)
    ensures TildeExpansion(t)
            == ">= " + CvText(Cv(false, t.cv.major, Some("0"), Some("0"), t.cv.pre, None))
               + (", < " + CvText(Plain(NatToString(DigitsValue(t.cv.major) + 1), Some("0"), Some("0"))))
  {
    var cv := t.cv;
    var u := NatToString(DigitsValue(cv.major) + 1);
    ZeroZeroText(cv.major, cv.pre);
    ZeroZeroText(u, None);
    assert u + ".0.0" + Tagged('-', None) == u + ".0.0";
    Bracket7(">= ", cv.major, ".0.0", Tagged('-', cv.pre), ", < ", u, ".0.0");
  }

  /** `~M.N.x`: the window `M.N.0` to `M.(N+1).0`. */
  lemma TildeWildPatch(t: TildeToken)
    requires !IsX(t.cv.major) && !WholeMajor(t.cv) && IsX(Bare(t.cv.patch))
    ensures TildeExpansion(t)
            == ">= " + CvText(Cv(false, t.cv.major, t.cv.minor, Some("0"), t.cv.pre, None))
               + (", < " + CvText(Plain(t.cv.major, Some(NatToString(DigitsValue(Bare(t.cv.minor)) + 1)), Some("0"))))
  {
    var cv := t.cv;
    var n := NatToString(DigitsValue(Bare(cv.minor)) + 1);
    var upper := ", < " + cv.major + "." + n + ".0";
    assert TildeExpansion(t) == ">= " + cv.major + Tagged('.', cv.minor) + ".0" + Tagged('-', cv.pre) + upper;
    assert CvText(Plain(cv.major, Some(n), Some("0"))) == cv.major + "." + n + ".0" by {
      MinorUpperText(cv.major, n);
    }
    assert CvText(Cv(false, cv.major, cv.minor, Some("0"), cv.pre, None))
           == cv.major + Tagged('.', cv.minor) + ".0" + Tagged('-', cv.pre) by {
      BareText(cv.major, cv.minor, Some("0"), cv.pre);
      assert Tagged('.', Some("0")) == ".0";
    }
    Regroup(">= ", cv.major, Tagged('.', cv.minor), ".0", Tagged('-', cv.pre), upper);
    Regroup4(", < ", cv.major, ".", n, ".0");
  }

  /** The text of the tilde upper bound `M.n.0`. */
  lemma MinorUpperText(major: string, n: string)
    ensures CvText(Plain(major, Some(n), Some("0"))) == major + "." + n + ".0"
  {
    BareText(major, Some(n), Some("0"), None);
    assert Tagged('.', Some(n)) == "." + n;
    assert Tagged('.', Some("0")) == ".0";
    assert major + ("." + n) + ".0" + "" == major + "." + n + ".0";
  }

  /** `~M.N[.P]`: the window from the version as written to `M.(N+1).0`. */
  lemma TildeExact(t: TildeToken)
    requires !IsX(t.cv.major) && !WholeMajor(t.cv) && !IsX(Bare(t.cv.patch))
    ensures TildeExpansion(t)
            == ">= " + CvText(Cv(false, t.cv.major, t.cv.minor, t.cv.patch, t.cv.pre, None))
               + (", < " + CvText(Plain(t.cv.major, Some(NatToString(DigitsValue(Bare(t.cv.minor)) + 1)), Some("0"))))
  {
    var cv := t.cv;
    var n := NatToString(DigitsValue(Bare(cv.minor)) + 1);
    var upper := ", < " + cv.major + "." + n + ".0";
    assert TildeExpansion(t)
           == ">= " + cv.major + Tagged('.', cv.minor) + Tagged('.', cv.patch) + Tagged('-', cv.pre) + upper;
    assert CvText(Plain(cv.major, Some(n), Some("0"))) == cv.major + "." + n + ".0" by {
      MinorUpperText(cv.major, n);
    }
    assert CvText(Cv(false, cv.major, cv.minor, cv.patch, cv.pre, None))
           == cv.major + Tagged('.', cv.minor) + Tagged('.', cv.patch) + Tagged('-', cv.pre) by {
      BareText(cv.major, cv.minor, cv.patch, cv.pre);
    }
    Regroup(">= ", cv.major, Tagged('.', cv.minor), Tagged('.', cv.patch), Tagged('-', cv.pre), upper);
    Regroup4(", < ", cv.major, ".", n, ".0");
  }

  /**
   * The tilde pass writes, for every match, exactly the comparators of the
   * table at constraints.go:265-270: `>=0.0.0` for a wildcard major,
   * otherwise `>= lower` and `< upper` as `TildeLower` and `TildeUpper` say.
   */
  lemma TildeExpansionClauses(t: TildeToken)
    ensures AllValid(TildeClauses(t))
    ensures Split(TildeExpansion(t), ",") == Texts(TildeClauses(t))
  {
    if IsX(t.cv.major) {
      AnyVersionClauses();
    } else {
      TildeWindow(t);
      TildeLowerBound(t);
      TildeUpperBound(t);
      WindowClauses(TildeLower(t), TildeUpper(t));
    }
  }

  /** `~` and `~>` expand the same version in the same way. */
  lemma TildeArrowSame(cv: Cv)
    requires ValidCv(cv) && TildeDefined(TildeMatch(false, cv))
    ensures TildeDefined(TildeMatch(true, cv))
    ensures TildeExpansion(TildeMatch(false, cv)) == TildeExpansion(TildeMatch(true, cv))
  {
  }
}
