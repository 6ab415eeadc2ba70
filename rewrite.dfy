/**
 * The three text-to-text passes that run before a constraint string is
 * parsed (constraints.go:183-187): `rewriteRange`, `rewriteCarets` and
 * `rewriteTilde`.
 *
 * Each pass asks a regular expression for all its leftmost matches and then,
 * match by match, replaces the FIRST occurrence of the match text in the
 * current string by the expansion of that match (`strings.Replace(o, v[0],
 * t, 1)`). The regular-expression engine is not modelled: its answer for an
 * input is given as a segmentation of the input into literal text and
 * matches (`Segment`), and the matches are tokens holding their captures.
 *
 * `Piece`s are the common currency: a literal is kept, a match is a swap of
 * its text for its expansion. `Before` is the text a segmentation was read
 * from, `After` is the text with every match expanded where it was found,
 * and `ReplaceEach` is what the replace-first loop computes.
 */
module Rewrite {
  import opened Wrappers
  import opened StringOps
  import opened Grammar

  datatype Segment<M> = Lit(text: string) | Hit(m: M)

  /** Replace the first occurrence of `from` by `to`. */
  datatype Edit = Edit(from: string, to: string)

  datatype Piece = Keep(text: string) | Swap(e: Edit)

  function Before(ps: seq<Piece>): string
  {
    if ps == [] then ""
    else
      var p := ps[|ps| - 1];
      Before(ps[..|ps| - 1]) + (if p.Keep? then p.text else p.e.from)
  }

  function After(ps: seq<Piece>): string
  {
    if ps == [] then ""
    else
      var p := ps[|ps| - 1];
      After(ps[..|ps| - 1]) + (if p.Keep? then p.text else p.e.to)
  }

  function Edits(ps: seq<Piece>): seq<Edit>
  {
    if ps == [] then []
    else
      var p := ps[|ps| - 1];
      Edits(ps[..|ps| - 1]) + (if p.Keep? then [] else [p.e])
  }

  /** The loop `for _, v := range m { o = strings.Replace(o, v[0], t, 1) }`. */
  function ReplaceEach(s: string, es: seq<Edit>): string
  {
    if es == [] then s
    else
      var e := es[|es| - 1];
      ReplaceFirst(ReplaceEach(s, es[..|es| - 1]), e.from, e.to)
  }

  /** The matches of a segmentation, in order: what `FindAllStringSubmatch` returns. */
  function Hits<M>(segs: seq<Segment<M>>): seq<M>
  {
    if segs == [] then []
    else
      var g := segs[|segs| - 1];
      Hits(segs[..|segs| - 1]) + (if g.Lit? then [] else [g.m])
  }

  function PiecesOf<M>(segs: seq<Segment<M>>, edit: M -> Edit): seq<Piece>
  {
    if segs == [] then []
    else
      var g := segs[|segs| - 1];
      PiecesOf(segs[..|segs| - 1], edit) + [if g.Lit? then Keep(g.text) else Swap(edit(g.m))]
  }

  function EditsOf<M>(ms: seq<M>, edit: M -> Edit): seq<Edit>
  {
    if ms == [] then [] else EditsOf(ms[..|ms| - 1], edit) + [edit(ms[|ms| - 1])]
  }

  /** Replacing for one more match is one more `strings.Replace(…, 1)`. */
  lemma EachStep<M>(s: string, ms: seq<M>, edit: M -> Edit, k: nat)
    requires k < |ms|
    ensures ReplaceEach(s, EditsOf(ms[..k + 1], edit))
            == ReplaceFirst(ReplaceEach(s, EditsOf(ms[..k], edit)), edit(ms[k]).from, edit(ms[k]).to)
  {
    assert ms[..k + 1][..k] == ms[..k];
  }

  /** Appending one piece, segment or edit extends each list function by its last element. */
  lemma PiecesSnoc(ps: seq<Piece>, p: Piece)
    ensures Before(ps + [p]) == Before(ps) + (if p.Keep? then p.text else p.e.from)
    ensures After(ps + [p]) == After(ps) + (if p.Keep? then p.text else p.e.to)
    ensures Edits(ps + [p]) == Edits(ps) + (if p.Keep? then [] else [p.e])
  {
    assert (ps + [p])[..|ps|] == ps;
  }

  lemma SegmentsSnoc<M>(segs: seq<Segment<M>>, g: Segment<M>, edit: M -> Edit)
    ensures PiecesOf(segs + [g], edit) == PiecesOf(segs, edit) + [if g.Lit? then Keep(g.text) else Swap(edit(g.m))]
    ensures Hits(segs + [g]) == Hits(segs) + (if g.Lit? then [] else [g.m])
  {
    assert (segs + [g])[..|segs|] == segs;
  }

  lemma EditsOfSnoc<M>(ms: seq<M>, m: M, edit: M -> Edit)
    ensures EditsOf(ms + [m], edit) == EditsOf(ms, edit) + [edit(m)]
  {
    assert (ms + [m])[..|ms|] == ms;
  }

  lemma ReplaceEachSnoc(s: string, es: seq<Edit>, e: Edit)
    ensures ReplaceEach(s, es + [e]) == ReplaceFirst(ReplaceEach(s, es), e.from, e.to)
  {
    assert (es + [e])[..|es|] == es;
  }

  /** No literal text of the segmentation contains `c`. */
  predicate LitsAvoid<M>(segs: seq<Segment<M>>, c: char)
  {
    forall k :: 0 <= k < |segs| && segs[k].Lit? ==> c !in segs[k].text
  }

  /**
   * Every swap starts with the marker `c`, and neither kept text nor any
   * replacement contains it.
   */
  predicate MarkedBy(ps: seq<Piece>, c: char)
  {
    forall k :: 0 <= k < |ps| ==>
      match ps[k]
      case Keep(t) => c !in t
      case Swap(e) => |e.from| > 0 && e.from[0] == c && c !in e.to
  }

  lemma MarkedByPrefix(ps: seq<Piece>, c: char)
    requires |ps| > 0 && MarkedBy(ps, c)
    ensures MarkedBy(ps[..|ps| - 1], c)
  {
    var init := ps[..|ps| - 1];
    forall k | 0 <= k < |init| ensures init[k] == ps[k] {
    }
  }

  /** Expanding every swap leaves no marker behind. */
  lemma {:induction false} AfterAvoids(ps: seq<Piece>, c: char)
    requires MarkedBy(ps, c)
    ensures c !in After(ps)
  {
    if ps != [] {
      MarkedByPrefix(ps, c);
      AfterAvoids(ps[..|ps| - 1], c);
    }
  }

  /**
   * Replacing first occurrences one swap after another rewrites every swap
   * at its own site when, at each swap, its text does not occur earlier:
   * not in the part already rewritten on its left, nor straddling into the
   * swap itself. The text to the right of a swap is still the
   * original text when the swap is replaced.
   */
  predicate InPlace(ps: seq<Piece>, tail: string)
    decreases |ps|
  {
    if ps == [] then true
    else
      var init, p := ps[..|ps| - 1], ps[|ps| - 1];
      match p
      case Keep(t) => InPlace(init, t + tail)
      case Swap(e) =>
        && InPlace(init, e.from + tail)
        && forall j :: 0 <= j < |After(init)| ==> !OccursAt(After(init) + e.from + tail, e.from, j)
  }

  lemma {:induction false} InPlaceSiteWise(ps: seq<Piece>, tail: string)
    requires InPlace(ps, tail)
    ensures ReplaceEach(Before(ps) + tail, Edits(ps)) == After(ps) + tail
  {
    if ps != [] {
      var init := ps[..|ps| - 1];
      var p := ps[|ps| - 1];
      if p.Keep? {
        KeepLast(ps, tail);
        InPlaceSiteWise(init, p.text + tail);
      } else {
        var e := p.e;
        SwapLast(ps, tail);
        InPlaceSiteWise(init, e.from + tail);
        assert After(init) + (e.from + tail) == After(init) + e.from + tail;
        ReplaceFirstAt(After(init), e.from, tail, e.to);
      }
    }
  }

  /**
   * Marked pieces are in place: everything left of the current swap is
   * already rewritten and holds no marker, so the first occurrence of the
   * swap's text is the swap itself.
   */
  lemma {:induction false} MarkedInPlace(ps: seq<Piece>, tail: string, c: char)
    requires MarkedBy(ps, c)
    ensures InPlace(ps, tail)
  {
    if ps != [] {
      var init := ps[..|ps| - 1];
      MarkedByPrefix(ps, c);
      var p := ps[|ps| - 1];
      if p.Keep? {
        MarkedInPlace(init, p.text + tail, c);
      } else {
        MarkedInPlace(init, p.e.from + tail, c);
        AfterAvoids(init, c);
        MarkerFree(After(init), p.e.from, tail, c);
      }
    }
  }

  lemma SiteWise(ps: seq<Piece>, tail: string, c: char)
    requires MarkedBy(ps, c)
    ensures ReplaceEach(Before(ps) + tail, Edits(ps)) == After(ps) + tail
  {
    MarkedInPlace(ps, tail, c);
    InPlaceSiteWise(ps, tail);
  }

  lemma KeepLast(ps: seq<Piece>, tail: string)
    requires |ps| > 0 && ps[|ps| - 1].Keep?
    ensures var init, t := ps[..|ps| - 1], ps[|ps| - 1].text;
            && Before(ps) + tail == Before(init) + (t + tail)
            && After(ps) + tail == After(init) + (t + tail)
            && Edits(ps) == Edits(init)
  {
  }

  lemma SwapLast(ps: seq<Piece>, tail: string)
    requires |ps| > 0 && ps[|ps| - 1].Swap?
    ensures var init, e := ps[..|ps| - 1], ps[|ps| - 1].e;
            && Before(ps) + tail == Before(init) + (e.from + tail)
            && After(ps) + tail == After(init) + e.to + tail
            && ReplaceEach(Before(ps) + tail, Edits(ps))
               == ReplaceFirst(ReplaceEach(Before(init) + (e.from + tail), Edits(init)), e.from, e.to)
  {
    var init, e := ps[..|ps| - 1], ps[|ps| - 1].e;
    assert Edits(ps) == Edits(init) + [e];
    assert (Edits(init) + [e])[..|Edits(init)|] == Edits(init);
  }

  /** A marked swap after marker-free text is replaced where it stands. */
  lemma SwapSite(a: string, e: Edit, tail: string, c: char)
    requires c !in a && |e.from| > 0 && e.from[0] == c
    ensures ReplaceFirst(a + (e.from + tail), e.from, e.to) == a + e.to + tail
  {
    assert a + (e.from + tail) == a + e.from + tail;
    MarkerFree(a, e.from, tail, c);
    ReplaceFirstAt(a, e.from, tail, e.to);
  }

  /** The marked case of `SiteWise`, for a whole text. */
  lemma ReplaceEachSiteWise(ps: seq<Piece>, c: char)
    requires MarkedBy(ps, c)
    ensures ReplaceEach(Before(ps), Edits(ps)) == After(ps)
  {
    SiteWise(ps, "", c);
    assert Before(ps) + "" == Before(ps);
    assert After(ps) + "" == After(ps);
  }

  /** The swaps of a segmentation are its matches' edits, in order. */
  lemma {:induction false} EditsOfPieces<M>(segs: seq<Segment<M>>, edit: M -> Edit)
    ensures Edits(PiecesOf(segs, edit)) == EditsOf(Hits(segs), edit)
  {
    if segs != [] {
      var init := segs[..|segs| - 1];
      EditsOfPieces(init, edit);
      var ps := PiecesOf(segs, edit);
      assert ps[..|ps| - 1] == PiecesOf(init, edit);
      var ms := Hits(segs);
      if segs[|segs| - 1].Hit? {
        assert ms[..|ms| - 1] == Hits(init);
      } else {
        assert ms == Hits(init);
      }
    }
  }

  /** Without a match, the pieces read and expanded give the same text. */
  lemma {:induction false} NoHitsSame<M>(segs: seq<Segment<M>>, edit: M -> Edit)
    requires Hits(segs) == []
    ensures After(PiecesOf(segs, edit)) == Before(PiecesOf(segs, edit))
  {
    if segs != [] {
      var init := segs[..|segs| - 1];
      var ps := PiecesOf(segs, edit);
      assert ps[..|ps| - 1] == PiecesOf(init, edit);
      NoHitsSame(init, edit);
    }
  }

  /**
   * A text without the character `c` has no match whose text contains `c`:
   * so a pass whose every match starts with its marker finds nothing in a
   * text without that marker.
   */
  lemma {:induction false} NoMarkerNoHits<M>(segs: seq<Segment<M>>, edit: M -> Edit, c: char)
    requires forall m :: c in edit(m).from
    requires c !in Before(PiecesOf(segs, edit))
    ensures Hits(segs) == []
  {
    if segs != [] {
      var init := segs[..|segs| - 1];
      var ps := PiecesOf(segs, edit);
      assert ps[..|ps| - 1] == PiecesOf(init, edit);
      LastHitShows(segs, edit, c);
      NoMarkerNoHits(init, edit, c);
    }
  }

  lemma LastHitShows<M>(segs: seq<Segment<M>>, edit: M -> Edit, c: char)
    requires |segs| > 0 && forall m :: c in edit(m).from
    ensures c !in Before(PiecesOf(segs, edit)) ==> c !in Before(PiecesOf(segs[..|segs| - 1], edit))
    ensures segs[|segs| - 1].Hit? ==> c in Before(PiecesOf(segs, edit))
  {
    var init := segs[..|segs| - 1];
    var ps := PiecesOf(segs, edit);
    assert ps[..|ps| - 1] == PiecesOf(init, edit);
    var g := segs[|segs| - 1];
    if g.Hit? {
      assert Before(ps) == Before(PiecesOf(init, edit)) + edit(g.m).from;
    }
  }

  /**
   * A segmentation whose literals avoid `c`, of a pass whose match texts start
   * with `c` and whose expansions avoid it, is marked by `c`.
   */
  lemma {:induction false} MarkedPieces<M>(segs: seq<Segment<M>>, edit: M -> Edit, c: char)
    requires forall m :: |edit(m).from| > 0 && edit(m).from[0] == c && c !in edit(m).to
    requires LitsAvoid(segs, c)
    ensures MarkedBy(PiecesOf(segs, edit), c)
  {
    if segs != [] {
      var init := segs[..|segs| - 1];
      assert LitsAvoid(init, c) by {
        forall k | 0 <= k < |init| ensures init[k] == segs[k] {
        }
      }
      MarkedPieces(init, edit, c);
      var ps := PiecesOf(segs, edit);
      assert ps[..|ps| - 1] == PiecesOf(init, edit);
      forall k | 0 <= k < |ps| - 1 ensures ps[k] == PiecesOf(init, edit)[k] {
      }
    }
  }

  // ---------------------------------------------------------------------
  // Expansions of single matches
  // ---------------------------------------------------------------------

  /** `strconv.ParseInt(x, 10, 32)` succeeds on a component that is not a wildcard. */
  predicate CaretDefined(cv: Cv)
  {
    IsX(cv.major) || ParsesInt32(cv.major)
  }

  /** A match of `\^cvRegex` on which `rewriteCarets` does not panic. */
  type CaretCv = cv: Cv | ValidCv(cv) && CaretDefined(cv)
    witness Cv(false, "*", None, None, None, None)

  /** The characters of a version's components before the build metadata avoid `c`. */
  lemma PartsAvoid(cv: Cv, c: char)
    requires ValidCv(cv) && !CvTextChar(c)
    ensures c !in cv.major
    ensures c !in Tagged('.', cv.minor) && c !in Tagged('.', cv.patch) && c !in Tagged('-', cv.pre)
  {
    TaggedChars('.', CvChar, cv.minor);
    TaggedChars('.', CvChar, cv.patch);
    TaggedChars('-', PreChar, cv.pre);
    assert forall i :: 0 <= i < |cv.major| ==> In(CvChar, cv.major[i]);
  }

  /**
   * The expansion of one caret match (constraints.go:227-259). The lower
   * bound drops the 'v' and the build metadata; a wildcard minor gives a
   * two-component lower bound `M.0`; the upper bound is always `< M+1`.
   */
  function CaretExpansion(cv: CaretCv): (r: string)
    ensures '^' !in r && '~' !in r
  {
    if IsX(cv.major) then ">=0.0.0"
    else
      PartsAvoid(cv, '^');
      PartsAvoid(cv, '~');
      var upper := ", < " + NatToString(DigitsValue(cv.major) + 1);
      if IsX(Bare(cv.minor)) then ">= " + cv.major + ".0" + Tagged('-', cv.pre) + upper
      else if IsX(Bare(cv.patch)) then
        ">= " + cv.major + Tagged('.', cv.minor) + ".0" + Tagged('-', cv.pre) + upper
      else ">= " + cv.major + Tagged('.', cv.minor) + Tagged('.', cv.patch) + Tagged('-', cv.pre) + upper
  }

  function CaretEdit(cv: CaretCv): Edit
  {
    Edit("^" + CvText(cv), CaretExpansion(cv))
  }

  /** A match of `~>?cvRegex`: the optional '>' and the version captures. */
  datatype TildeMatch = TildeMatch(arrow: bool, cv: Cv)

  function TildeText(t: TildeMatch): string
  {
    "~" + (if t.arrow then ">" else "") + CvText(t.cv)
  }

  /** The minor component is absent or a wildcard: the window spans a whole major. */
  predicate WholeMajor(cv: Cv)
  {
    IsX(Bare(cv.minor)) || cv.minor.None?
  }

  /** The component `rewriteTilde` converts does so without panicking. */
  predicate TildeDefined(t: TildeMatch)
  {
    IsX(t.cv.major) || (if WholeMajor(t.cv) then ParsesInt32(t.cv.major) else ParsesInt32(Bare(t.cv.minor)))
  }

  type TildeToken = t: TildeMatch | ValidCv(t.cv) && TildeDefined(t)
    witness TildeMatch(false, Cv(false, "*", None, None, None, None))

  /**
   * The expansion of one tilde match (constraints.go:280-312). An absent
   * minor counts as a wildcard; the upper bound of a minor window reuses the
   * major's text as written.
   */
  function TildeExpansion(t: TildeToken): string
  {
    var cv := t.cv;
    if IsX(cv.major) then ">=0.0.0"
    else
      if WholeMajor(cv) then
        ">= " + cv.major + ".0.0" + Tagged('-', cv.pre) + ", < " + NatToString(DigitsValue(cv.major) + 1) + ".0.0"
      else
        var upper := ", < " + cv.major + "." + NatToString(DigitsValue(Bare(cv.minor)) + 1) + ".0";
        if IsX(Bare(cv.patch)) then
          ">= " + cv.major + Tagged('.', cv.minor) + ".0" + Tagged('-', cv.pre) + upper
        else ">= " + cv.major + Tagged('.', cv.minor) + Tagged('.', cv.patch) + Tagged('-', cv.pre) + upper
  }

  function TildeEdit(t: TildeToken): Edit
  {
    Edit(TildeText(t), TildeExpansion(t))
  }

  /** A number written by `%d` holds neither marker. */
  lemma NumberUnmarked(n: nat)
    ensures '^' !in NatToString(n) && '~' !in NatToString(n)
  {
    var s := NatToString(n);
    assert forall i :: 0 <= i < |s| ==> IsDigit(s[i]);
  }

  /** A character in none of five texts is not in their concatenation. */
  lemma Avoid5(c: char, a: string, b: string, d: string, e: string, f: string)
    requires c !in a && c !in b && c !in d && c !in e && c !in f
    ensures c !in a + b + d + e + f
  {
  }

  /** No tilde expansion contains '^' or '~'. */
  lemma TildeUnmarked(t: TildeToken)
    ensures '^' !in TildeExpansion(t) && '~' !in TildeExpansion(t)
  {
    if !IsX(t.cv.major) {
      if WholeMajor(t.cv) {
        TildeMajorUnmarked(t, '^');
        TildeMajorUnmarked(t, '~');
      } else {
        TildeMinorUnmarked(t, '^');
        TildeMinorUnmarked(t, '~');
      }
    }
  }

  lemma TildeMajorUnmarked(t: TildeToken, c: char)
    requires !IsX(t.cv.major) && WholeMajor(t.cv) && (c == '^' || c == '~')
    ensures c !in TildeExpansion(t)
  {
    var cv := t.cv;
    PartsAvoid(cv, c);
    var n := NatToString(DigitsValue(cv.major) + 1);
    NumberUnmarked(DigitsValue(cv.major) + 1);
    var lower := ">= " + cv.major + ".0.0" + Tagged('-', cv.pre);
    Avoid5(c, ">= ", cv.major, ".0.0", Tagged('-', cv.pre), "");
    assert lower + "" == lower;
    Avoid5(c, lower, ", < ", n, ".0.0", "");
    assert lower + ", < " + n + ".0.0" + "" == TildeExpansion(t);
  }

  lemma TildeMinorUnmarked(t: TildeToken, c: char)
    requires !IsX(t.cv.major) && !WholeMajor(t.cv) && (c == '^' || c == '~')
    ensures c !in TildeExpansion(t)
  {
    var cv := t.cv;
    PartsAvoid(cv, c);
    var n := NatToString(DigitsValue(Bare(cv.minor)) + 1);
    NumberUnmarked(DigitsValue(Bare(cv.minor)) + 1);
    var upper := ", < " + cv.major + "." + n + ".0";
    Avoid5(c, ", < ", cv.major, ".", n, ".0");
    var mid := if IsX(Bare(cv.patch)) then ".0" else Tagged('.', cv.patch);
    Avoid5(c, ">= ", cv.major, Tagged('.', cv.minor), mid, Tagged('-', cv.pre));
    assert ">= " + cv.major + Tagged('.', cv.minor) + mid + Tagged('-', cv.pre) + upper == TildeExpansion(t);
  }

  /** Every tilde edit starts with '~' and writes no '~'. */
  lemma TildeEditsMarked()
    ensures forall t: TildeToken :: |TildeEdit(t).from| > 0 && TildeEdit(t).from[0] == '~' && '~' !in TildeEdit(t).to
  {
    forall t: TildeToken
      ensures |TildeEdit(t).from| > 0 && TildeEdit(t).from[0] == '~' && '~' !in TildeEdit(t).to
    {
      TildeUnmarked(t);
    }
  }

  /**
   * A match of `\s*(SemVerRegex)\s*-\s*(SemVerRegex)\s*`: the white space
   * around the two endpoints and the endpoints themselves, which are kept
   * as text.
   */
  datatype RangeMatch = RangeMatch(lead: string, from: string, gap1: string, gap2: string, to: string, trail: string)

  function RangeText(r: RangeMatch): string
  {
    r.lead + r.from + r.gap1 + "-" + r.gap2 + r.to + r.trail
  }

  /** The expansion of one range match (constraints.go:205). */
  function RangeExpansion(r: RangeMatch): string
  {
    ">= " + r.from + ", <= " + r.to
  }

  function RangeEdit(r: RangeMatch): Edit
  {
    Edit(RangeText(r), RangeExpansion(r))
  }

  // ---------------------------------------------------------------------
  // The passes
  // ---------------------------------------------------------------------

  /** `segs` is a segmentation of `i` for a pass with match edits `edit`. */
  predicate Reads<M>(segs: seq<Segment<M>>, edit: M -> Edit, i: string)
  {
    Before(PiecesOf(segs, edit)) == i
  }

  /**
   * `rewriteCarets` (constraints.go:220-263). When no literal text holds a
   * '^' (a '^' is otherwise always the start of a match), every match is
   * expanded exactly where it was found.
   */
  method RewriteCarets(i: string, segs: seq<Segment<CaretCv>>) returns (o: string)
    requires Reads(segs, CaretEdit, i)
    ensures o == ReplaceEach(i, EditsOf(Hits(segs), CaretEdit))
    ensures Hits(segs) == [] ==> o == i
    ensures LitsAvoid(segs, '^') ==> o == After(PiecesOf(segs, CaretEdit))
  {
    CaretSiteWise(i, segs);
    var m := Hits(segs);
    if m == [] {
      return i;
    }
    o := i;
    for k := 0 to |m|
      invariant o == ReplaceEach(i, EditsOf(m[..k], CaretEdit))
    {
      EachStep(i, m, CaretEdit, k);
      o := ReplaceFirst(o, "^" + CvText(m[k]), CaretExpansion(m[k]));
    }
    assert m[..|m|] == m;
  }

  /** The caret pass as a function of its input and the matches found in it. */
  function CaretPass(i: string, segs: seq<Segment<CaretCv>>): string
  {
    ReplaceEach(i, EditsOf(Hits(segs), CaretEdit))
  }

  lemma CaretSiteWise(i: string, segs: seq<Segment<CaretCv>>)
    requires Reads(segs, CaretEdit, i)
    ensures LitsAvoid(segs, '^') ==> CaretPass(i, segs) == After(PiecesOf(segs, CaretEdit))
  {
    if LitsAvoid(segs, '^') {
      MarkedPieces(segs, CaretEdit, '^');
      EditsOfPieces(segs, CaretEdit);
      ReplaceEachSiteWise(PiecesOf(segs, CaretEdit), '^');
    }
  }

  /**
   * Rewriting carets twice is rewriting them once: the first pass leaves no
   * '^', so the second finds no match.
   */
  lemma CaretIdempotent(i: string, segs: seq<Segment<CaretCv>>, segs2: seq<Segment<CaretCv>>)
    requires Reads(segs, CaretEdit, i) && LitsAvoid(segs, '^')
    requires Reads(segs2, CaretEdit, CaretPass(i, segs))
    ensures Hits(segs2) == []
    ensures CaretPass(CaretPass(i, segs), segs2) == CaretPass(i, segs)
  {
    var ps := PiecesOf(segs, CaretEdit);
    CaretSiteWise(i, segs);
    MarkedPieces(segs, CaretEdit, '^');
    AfterAvoids(ps, '^');
    NoMarkerNoHits(segs2, CaretEdit, '^');
  }

  /**
   * `rewriteTilde` (constraints.go:273-316). `~` and `~>` share the pass;
   * when no literal holds a '~', every match is expanded where it was found.
   */
  method RewriteTilde(i: string, segs: seq<Segment<TildeToken>>) returns (o: string)
    requires Reads(segs, TildeEdit, i)
    ensures o == TildePass(i, segs)
    ensures Hits(segs) == [] ==> o == i
    ensures LitsAvoid(segs, '~') ==> o == After(PiecesOf(segs, TildeEdit))
  {
    TildeSiteWise(i, segs);
    var m := Hits(segs);
    if m == [] {
      return i;
    }
    o := i;
    for k := 0 to |m|
      invariant o == ReplaceEach(i, EditsOf(m[..k], TildeEdit))
    {
      EachStep(i, m, TildeEdit, k);
      o := ReplaceFirst(o, TildeText(m[k]), TildeExpansion(m[k]));
    }
    assert m[..|m|] == m;
  }

  function TildePass(i: string, segs: seq<Segment<TildeToken>>): string
  {
    ReplaceEach(i, EditsOf(Hits(segs), TildeEdit))
  }

  lemma TildeSiteWise(i: string, segs: seq<Segment<TildeToken>>)
    requires Reads(segs, TildeEdit, i)
    ensures LitsAvoid(segs, '~') ==> TildePass(i, segs) == After(PiecesOf(segs, TildeEdit))
  {
    if LitsAvoid(segs, '~') {
      TildeEditsMarked();
      MarkedPieces(segs, TildeEdit, '~');
      EditsOfPieces(segs, TildeEdit);
      ReplaceEachSiteWise(PiecesOf(segs, TildeEdit), '~');
    }
  }

  /** Rewriting tildes twice is rewriting them once. */
  lemma TildeIdempotent(i: string, segs: seq<Segment<TildeToken>>, segs2: seq<Segment<TildeToken>>)
    requires Reads(segs, TildeEdit, i) && LitsAvoid(segs, '~')
    requires Reads(segs2, TildeEdit, TildePass(i, segs))
    ensures Hits(segs2) == []
    ensures TildePass(TildePass(i, segs), segs2) == TildePass(i, segs)
  {
    var ps := PiecesOf(segs, TildeEdit);
    TildeSiteWise(i, segs);
    TildeEditsMarked();
    MarkedPieces(segs, TildeEdit, '~');
    AfterAvoids(ps, '~');
    NoMarkerNoHits(segs2, TildeEdit, '~');
  }

  /**
   * `rewriteRange` as written (constraints.go:198-210): each match text is
   * replaced where it FIRST occurs in the current string, which can be inside
   * an earlier expansion (see `RangeReplaceMisplaced`).
   */
  method RewriteRangeAsWritten(i: string, segs: seq<Segment<RangeMatch>>) returns (o: string)
    ensures o == RangePassAsWritten(i, segs)
    ensures Hits(segs) == [] ==> o == i
    ensures Reads(segs, RangeEdit, i) && InPlace(PiecesOf(segs, RangeEdit), "") ==>
              o == After(PiecesOf(segs, RangeEdit))
  {
    if Reads(segs, RangeEdit, i) {
      RangeSiteWise(i, segs);
    }
    var m := Hits(segs);
    if m == [] {
      return i;
    }
    o := i;
    for k := 0 to |m|
      invariant o == ReplaceEach(i, EditsOf(m[..k], RangeEdit))
    {
      assert m[..k + 1][..k] == m[..k];
      o := ReplaceFirst(o, RangeText(m[k]), RangeExpansion(m[k]));
    }
    assert m[..|m|] == m;
  }

  function RangePassAsWritten(i: string, segs: seq<Segment<RangeMatch>>): string
  {
    ReplaceEach(i, EditsOf(Hits(segs), RangeEdit))
  }

  /**
   * The replace-first range pass expands every match where it was found
   * whenever no match text occurs before its own site; in particular, for a
   * lone match.
   */
  lemma RangeSiteWise(i: string, segs: seq<Segment<RangeMatch>>)
    requires Reads(segs, RangeEdit, i)
    ensures InPlace(PiecesOf(segs, RangeEdit), "") ==> RangePassAsWritten(i, segs) == After(PiecesOf(segs, RangeEdit))
  {
    var ps := PiecesOf(segs, RangeEdit);
    if InPlace(ps, "") {
      EditsOfPieces(segs, RangeEdit);
      InPlaceSiteWise(ps, "");
      assert Before(ps) + "" == Before(ps);
      assert After(ps) + "" == After(ps);
    }
  }

  /**
   * The range pass as intended: every match is replaced by `>= A, <= B` at the
   * place where it was found, and the text between matches is kept.
   */
  method RewriteRange(i: string, segs: seq<Segment<RangeMatch>>) returns (o: string)
    requires Reads(segs, RangeEdit, i)
    ensures o == After(PiecesOf(segs, RangeEdit))
    ensures Hits(segs) == [] ==> o == i
  {
    o := "";
    for k := 0 to |segs|
      invariant o == After(PiecesOf(segs[..k], RangeEdit))
    {
      assert segs[..k + 1][..k] == segs[..k];
      match segs[k]
      case Lit(t) => o := o + t;
      case Hit(r) => o := o + RangeExpansion(r);
    }
    assert segs[..|segs|] == segs;
    if Hits(segs) == [] {
      NoHitsSame(segs, RangeEdit);
    }
  }

  /**
   * The range pass is not idempotent. "1.0.0-1 - 2" holds the match from
   * "1.0.0-1" to "2" and becomes ">= 1.0.0-1, <= 2". When the version pattern
   * accepts "1.0.0" and "1", a second pass finds " 1.0.0-1", from "1.0.0" to
   * "1", and makes the text ">=>= 1.0.0, <= 1, <= 2". Both forms of the pass
   * agree on each step.
   */
  lemma RangeNotIdempotent()
    ensures Reads(FirstRangePass(), RangeEdit, "1.0.0-1 - 2")
    ensures RangePassAsWritten("1.0.0-1 - 2", FirstRangePass())
            == After(PiecesOf(FirstRangePass(), RangeEdit))
            == ">= 1.0.0-1, <= 2"
    ensures Reads(SecondRangePass(), RangeEdit, ">= 1.0.0-1, <= 2")
    ensures RangePassAsWritten(">= 1.0.0-1, <= 2", SecondRangePass())
            == After(PiecesOf(SecondRangePass(), RangeEdit))
            == ">=>= 1.0.0, <= 1, <= 2"
  {
    FirstPassText();
    LoneRange(FirstRangePass()[0].m);
    SecondPassText();
    MidRange(">=", SecondRangePass()[1].m, ", <= 2");
  }

  /** The single match of the range pattern in "1.0.0-1 - 2". */
  function FirstRangePass(): seq<Segment<RangeMatch>>
  {
    [Hit(RangeMatch("", "1.0.0-1", " ", " ", "2", ""))]
  }

  lemma FirstPassText()
    ensures FirstRangePass() == [Hit(FirstRangePass()[0].m)]
    ensures RangeText(FirstRangePass()[0].m) == "1.0.0-1 - 2"
    ensures RangeExpansion(FirstRangePass()[0].m) == ">= 1.0.0-1, <= 2"
  {
  }

  lemma SecondPassText()
    ensures SecondRangePass() == [Lit(">="), Hit(SecondRangePass()[1].m), Lit(", <= 2")]
    ensures ">=" + RangeText(SecondRangePass()[1].m) + ", <= 2" == ">= 1.0.0-1, <= 2"
    ensures ">=" + RangeExpansion(SecondRangePass()[1].m) + ", <= 2" == ">=>= 1.0.0, <= 1, <= 2"
    ensures forall j :: 0 <= j < |">="| ==> !OccursAt(">= 1.0.0-1, <= 2", RangeText(SecondRangePass()[1].m), j)
  {
    var t := RangeText(SecondRangePass()[1].m);
    assert t == " 1.0.0-1";
    MarkerFree(">=", t, ", <= 2", ' ');
  }

  /** A text that is one range match is rewritten to its expansion by both forms of the pass. */
  lemma LoneRange(r: RangeMatch)
    ensures Reads([Hit(r)], RangeEdit, RangeText(r))
    ensures RangePassAsWritten(RangeText(r), [Hit(r)]) == After(PiecesOf([Hit(r)], RangeEdit)) == RangeExpansion(r)
  {
    OneHit(r, RangeEdit);
    ReplaceOne(RangeText(r), RangeEdit(r));
    ReplaceFirstAt("", RangeText(r), "", RangeExpansion(r));
    assert "" + RangeText(r) + "" == RangeText(r);
    assert "" + RangeExpansion(r) + "" == RangeExpansion(r);
  }

  /** A range match between literal texts, found first where it stands, is rewritten there by both forms of the pass. */
  lemma MidRange(a: string, r: RangeMatch, b: string)
    requires forall j :: 0 <= j < |a| ==> !OccursAt(a + RangeText(r) + b, RangeText(r), j)
    ensures Reads([Lit(a), Hit(r), Lit(b)], RangeEdit, a + RangeText(r) + b)
    ensures RangePassAsWritten(a + RangeText(r) + b, [Lit(a), Hit(r), Lit(b)])
            == After(PiecesOf([Lit(a), Hit(r), Lit(b)], RangeEdit)) == a + RangeExpansion(r) + b
  {
    LitHitLit(a, r, b, RangeEdit);
    KeepSwapKeep(a, RangeEdit(r), b);
    ReplaceOne(a + RangeText(r) + b, RangeEdit(r));
    ReplaceFirstAt(a, RangeText(r), b, RangeExpansion(r));
  }

  /** The matches of the range pattern in ">= 1.0.0-1, <= 2". */
  function SecondRangePass(): seq<Segment<RangeMatch>>
  {
    [Lit(">="), Hit(RangeMatch(" ", "1.0.0", "", "", "1", "")), Lit(", <= 2")]
  }

  /** A lone match: one swap, one edit. */
  lemma OneHit<M>(m: M, edit: M -> Edit)
    ensures PiecesOf([Hit(m)], edit) == [Swap(edit(m))] && EditsOf(Hits([Hit(m)]), edit) == [edit(m)]
    ensures Before([Swap(edit(m))]) == edit(m).from && After([Swap(edit(m))]) == edit(m).to
  {
    assert [Hit(m)][..0] == [];
    assert [Swap(edit(m))][..0] == [];
  }

  /** Replacing along a single edit is one replace-first. */
  lemma ReplaceOne(s: string, e: Edit)
    ensures ReplaceEach(s, [e]) == ReplaceFirst(s, e.from, e.to)
  {
    assert [e][..0] == [];
  }

  /** A match between two literal texts. */
  lemma LitHitLit<M>(a: string, m: M, b: string, edit: M -> Edit)
    ensures PiecesOf([Lit(a), Hit(m), Lit(b)], edit) == [Keep(a), Swap(edit(m)), Keep(b)]
    ensures EditsOf(Hits([Lit(a), Hit(m), Lit(b)]), edit) == [edit(m)]
  {
    var g0, g1, g2 := Lit(a), Hit(m), Lit(b);
    assert [] + [g0] == [g0] && [g0] + [g1] == [g0, g1] && [g0, g1] + [g2] == [g0, g1, g2];
    SegmentsSnoc([], g0, edit);
    SegmentsSnoc([g0], g1, edit);
    SegmentsSnoc([g0, g1], g2, edit);
    assert [] + [m] == [m];
    EditsOfSnoc([], m, edit);
  }

  /** A kept text, a swap and a kept text, read before and after. */
  lemma KeepSwapKeep(a: string, e: Edit, b: string)
    ensures Before([Keep(a), Swap(e), Keep(b)]) == a + e.from + b
    ensures After([Keep(a), Swap(e), Keep(b)]) == a + e.to + b
  {
    var p0, p1, p2 := Keep(a), Swap(e), Keep(b);
    assert [] + [p0] == [p0] && [p0] + [p1] == [p0, p1] && [p0, p1] + [p2] == [p0, p1, p2];
    PiecesSnoc([], p0);
    PiecesSnoc([p0], p1);
    PiecesSnoc([p0, p1], p2);
  }

}
