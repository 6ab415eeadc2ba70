/**
 * The textual grammar of a constraint clause: the loose version pattern
 * `cvRegex` (constraints.go:189-191), the `isX` wildcard test, and the
 * anchored clause pattern `^\s*(op)\s*(cv)\s*$` built in `init`.
 *
 * The version pattern is represented by a token `Cv` holding its captures,
 * `CvText` renders a token back into text, and `MatchCv` / `MatchClause`
 * decide the anchored patterns. The pattern is unambiguous: operator
 * characters, white space and version characters are disjoint, and every
 * optional part starts with its own lead character ('.', '-', '+'), so the
 * leftmost-first captures of the regular expression are the ones computed
 * here by maximal spans.
 *
 * Components are made of digits, 'x', 'X' and '*'. The class
 * `[0-9|x|X|\*]` as written also admits '|', so that a version can swallow
 * the `||` separator; `CvCharAsWritten` keeps that class for the record and
 * `CvTextNoBar` states what the corrected class guarantees.
 */
module Grammar {
  import opened Wrappers
  import opened StringOps

  /** The character classes of the patterns. */
  datatype Class =
    | Space      // `\s` in Go's regexp syntax: '\t', '\n', '\f', '\r', ' '
    | OpChar     // the characters of the operator tokens
    | CvChar     // a version component character: digits, 'x', 'X' and '*'
    | CvCharAsWritten  // `[0-9|x|X|\*]` as written, which also admits '|'
    | PreChar    // `[0-9A-Za-z\-]` together with the '.' separating identifiers
    | NonSpace

  predicate IsSpace(c: char)
  {
    c == ' ' || c == '\t' || c == '\n' || c == '\r' || c as int == 12
  }

  predicate In(k: Class, c: char)
  {
    match k
    case Space => IsSpace(c)
    case OpChar => c == '=' || c == '!' || c == '<' || c == '>'
    case CvChar => '0' <= c <= '9' || c == 'x' || c == 'X' || c == '*'
    case CvCharAsWritten => '0' <= c <= '9' || c == '|' || c == 'x' || c == 'X' || c == '*'
    case PreChar => '0' <= c <= '9' || 'A' <= c <= 'Z' || 'a' <= c <= 'z' || c == '-' || c == '.'
    case NonSpace => !IsSpace(c)
  }

  predicate All(k: Class, s: string)
  {
    forall i :: 0 <= i < |s| ==> In(k, s[i])
  }

  /** The length of the longest prefix of `s` inside class `k`. */
  function Span(k: Class, s: string): (n: nat)
    ensures n <= |s| && All(k, s[..n])
    ensures n == |s| || !In(k, s[n])
  {
    if |s| == 0 || !In(k, s[0]) then 0
    else
      var n := 1 + Span(k, s[1..]);
      assert forall i :: 1 <= i < n ==> s[..n][i] == s[1..][..n - 1][i - 1];
      n
  }

  /** The longest prefix in a class stops exactly where the class stops. */
  lemma {:induction false} SpanOf(k: Class, a: string, b: string)
    requires All(k, a)
    requires b == [] || !In(k, b[0])
    ensures Span(k, a + b) == |a|
  {
    if a == [] {
      assert a + b == b;
    } else {
      assert (a + b)[0] == a[0];
      assert (a + b)[1..] == a[1..] + b;
      SpanOf(k, a[1..], b);
    }
  }

  /** `isX`: the component is a wildcard once lower-cased. */
  predicate IsX(s: string)
  {
    var l := ToLower(s);
    l == "x" || l == "*"
  }

  /** The wildcards are exactly "x", "X" and "*"; in particular "" is not one. */
  lemma IsXExactly(s: string)
    ensures IsX(s) <==> s == "x" || s == "X" || s == "*"
  {
    if |s| == 1 {
      assert ToLower(s) == [LowerChar(s[0])];
      if s[0] == 'X' {
        assert LowerChar(s[0]) == 'x';
      }
      if LowerChar(s[0]) == 'x' || LowerChar(s[0]) == '*' {
        assert s == [s[0]];
      }
    } else {
      assert |ToLower(s)| != 1;
    }
  }

  /** Identifiers separated by single dots: `[0-9A-Za-z\-]+(\.[0-9A-Za-z\-]+)*`. */
  predicate DottedIdents(s: string)
  {
    && |s| > 0
    && All(PreChar, s)
    && s[0] != '.'
    && s[|s| - 1] != '.'
    && forall i :: 0 <= i < |s| - 1 ==> !(s[i] == '.' && s[i + 1] == '.')
  }

  /**
   * The captures of `cvRegex`: an optional 'v', the major component, the
   * optional minor and patch components (without their dots), the optional
   * prerelease (without its '-') and the optional build metadata (without
   * its '+').
   */
  datatype Cv = Cv(v: bool, major: string, minor: Option<string>, patch: Option<string>,
                   pre: Option<string>, build: Option<string>)

  /** An optional capture with its lead character, as the regexp group includes it. */
  function Tagged(lead: char, part: Option<string>): string
  {
    match part
    case None => ""
    case Some(p) => [lead] + p
  }

  /** The capture without its lead character, "" when absent (`strings.TrimPrefix(g, ".")`). */
  function Bare(part: Option<string>): string
  {
    match part
    case None => ""
    case Some(p) => p
  }

  function CvText(cv: Cv): string
  {
    (if cv.v then "v" else "") + cv.major + Tagged('.', cv.minor) + Tagged('.', cv.patch)
      + Tagged('-', cv.pre) + Tagged('+', cv.build)
  }

  /**
   * The tokens the pattern can capture. A patch needs a minor: of two
   * optional dotted groups the regular expression fills the first one first.
   */
  predicate ValidCv(cv: Cv)
  {
    && |cv.major| > 0 && All(CvChar, cv.major)
    && (cv.minor.Some? ==> |cv.minor.value| > 0 && All(CvChar, cv.minor.value))
    && (cv.patch.Some? ==> cv.minor.Some? && |cv.patch.value| > 0 && All(CvChar, cv.patch.value))
    && (cv.pre.Some? ==> DottedIdents(cv.pre.value))
    && (cv.build.Some? ==> DottedIdents(cv.build.value))
  }

  /** The characters a version text can contain. */
  predicate CvTextChar(c: char)
  {
    c == 'v' || c == '.' || c == '+' || In(CvChar, c) || In(PreChar, c)
  }

  /** Every character of `s` is a version character. */
  predicate VersionChars(s: string)
  {
    forall i :: 0 <= i < |s| ==> CvTextChar(s[i])
  }

  lemma VersionCharsConcat(a: string, b: string)
    requires VersionChars(a) && VersionChars(b)
    ensures VersionChars(a + b)
  {
    forall i | 0 <= i < |a + b| ensures CvTextChar((a + b)[i]) {
      if i >= |a| {
        assert (a + b)[i] == b[i - |a|];
      }
    }
  }

  lemma TaggedChars(lead: char, k: Class, part: Option<string>)
    requires part.Some? ==> All(k, part.value)
    ensures forall i :: 0 <= i < |Tagged(lead, part)| ==>
              Tagged(lead, part)[i] == lead || In(k, Tagged(lead, part)[i])
  {
    if part.Some? {
      var t := Tagged(lead, part);
      assert forall i :: 1 <= i < |t| ==> t[i] == part.value[i - 1];
    }
  }

  /**
   * Every character of a version text is a version character (so neither
   * white space, an operator character, ',', '^' nor '~'), and it starts with
   * 'v' or a component character.
   */
  lemma CvTextChars(cv: Cv)
    requires ValidCv(cv)
    ensures |CvText(cv)| > 0
    ensures CvText(cv)[0] == 'v' || In(CvChar, CvText(cv)[0])
    ensures forall i :: 0 <= i < |CvText(cv)| ==> CvTextChar(CvText(cv)[i])
  {
    var v := if cv.v then "v" else "";
    var a := Tagged('.', cv.minor);
    var b := Tagged('.', cv.patch);
    var c := Tagged('-', cv.pre);
    var d := Tagged('+', cv.build);
    TaggedChars('.', CvChar, cv.minor);
    TaggedChars('.', CvChar, cv.patch);
    TaggedChars('-', PreChar, cv.pre);
    TaggedChars('+', PreChar, cv.build);
    var s := v + cv.major + a + b + c + d;
    assert s == CvText(cv);
    assert VersionChars(v) && VersionChars(cv.major) && VersionChars(a) by {
      assert forall i :: 0 <= i < |v| ==> v[i] == 'v';
    }
    assert VersionChars(b) && VersionChars(c) && VersionChars(d);
    VersionCharsConcat(v, cv.major);
    VersionCharsConcat(v + cv.major, a);
    VersionCharsConcat(v + cv.major + a, b);
    VersionCharsConcat(v + cv.major + a + b, c);
    VersionCharsConcat(v + cv.major + a + b + c, d);
    assert s[0] == if cv.v then 'v' else cv.major[0];
  }

  /** A version text without 'v' and build metadata. */
  lemma BareText(major: string, minor: Option<string>, patch: Option<string>, pre: Option<string>)
    ensures CvText(Cv(false, major, minor, patch, pre, None))
            == major + Tagged('.', minor) + Tagged('.', patch) + Tagged('-', pre)
  {
    assert "" + major == major;
  }

  /** The text of `M.0.0` with an optional pre-release. */
  lemma ZeroZeroText(major: string, pre: Option<string>)
    ensures CvText(Cv(false, major, Some("0"), Some("0"), pre, None)) == major + ".0.0" + Tagged('-', pre)
  {
    BareText(major, Some("0"), Some("0"), pre);
    assert Tagged('.', Some("0")) == ".0";
    assert major + ".0" + ".0" == major + ".0.0";
  }

  /** No version text contains '|': a version never swallows the `||` separator. */
  lemma CvTextNoBar(cv: Cv)
    requires ValidCv(cv)
    ensures '|' !in CvText(cv)
  {
    CvTextChars(cv);
  }

  /**
   * One optional group of the pattern at the front of `s`: when `s` starts
   * with `lead`, the longest run of class `k` after it, and what follows.
   */
  function Group(lead: char, k: Class, s: string): (r: (Option<string>, string))
    ensures Tagged(lead, r.0) + r.1 == s
  {
    if |s| > 0 && s[0] == lead then
      var n := Span(k, s[1..]);
      assert [lead] + s[1..][..n] + s[1..][n..] == s;
      (Some(s[1..][..n]), s[1..][n..])
    else (None, s)
  }

  lemma GroupOf(lead: char, k: Class, part: Option<string>, rest: string)
    requires part.Some? ==> All(k, part.value) && (rest == [] || !In(k, rest[0]))
    requires part.None? ==> rest == [] || rest[0] != lead
    ensures Group(lead, k, Tagged(lead, part) + rest) == (part, rest)
  {
    var s := Tagged(lead, part) + rest;
    if part.Some? {
      var p := part.value;
      assert s == [lead] + (p + rest);
      assert s[0] == lead;
      assert s[1..] == p + rest;
      SpanOf(k, p, rest);
      assert s[1..][..|p|] == p;
      assert s[1..][|p|..] == rest;
    } else {
      assert s == rest;
    }
  }

  /** A version text followed by more text, with the concatenation nested to the right. */
  function CvTextThen(cv: Cv, rest: string): string
  {
    (if cv.v then "v" else "") + (cv.major + (Tagged('.', cv.minor) + (Tagged('.', cv.patch)
      + (Tagged('-', cv.pre) + (Tagged('+', cv.build) + rest)))))
  }

  lemma CvTextThenIs(cv: Cv, rest: string)
    ensures CvText(cv) + rest == CvTextThen(cv, rest)
  {
    var v := if cv.v then "v" else "";
    var t1, t2, t3, t4 := Tagged('.', cv.minor), Tagged('.', cv.patch), Tagged('-', cv.pre), Tagged('+', cv.build);
    var p := v + cv.major + t1 + t2 + t3;
    assert (p + t4) + rest == p + (t4 + rest);
    var q := v + cv.major + t1 + t2;
    assert (q + t3) + (t4 + rest) == q + (t3 + (t4 + rest));
    var u := v + cv.major + t1;
    assert (u + t2) + (t3 + (t4 + rest)) == u + (t2 + (t3 + (t4 + rest)));
    assert (v + cv.major + t1) + (t2 + (t3 + (t4 + rest))) == (v + cv.major) + (t1 + (t2 + (t3 + (t4 + rest))));
    assert (v + cv.major) + (t1 + (t2 + (t3 + (t4 + rest)))) == v + (cv.major + (t1 + (t2 + (t3 + (t4 + rest)))));
  }

  /**
   * The greedy captures of `cvRegex` at the front of `x`, and what follows
   * them; the captures need not form a valid token.
   */
  function ScanCv(x: string): (r: (Cv, string))
    ensures CvText(r.0) + r.1 == x
  {
    var hasV := |x| > 0 && x[0] == 'v';
    var y := if hasV then x[1..] else x;
    var n := Span(CvChar, y);
    var g := ScanGroups(y[n..]);
    var cv := Cv(hasV, y[..n], g.0, g.1, g.2, g.3);
    SplitAtSpan(y, n, Tagged('.', g.0) + (Tagged('.', g.1) + (Tagged('-', g.2) + (Tagged('+', g.3) + g.4))));
    LeadingV(x, hasV, y);
    CvTextThenIs(cv, g.4);
    (cv, g.4)
  }

  lemma SplitAtSpan(y: string, n: nat, tail: string)
    requires n <= |y| && tail == y[n..]
    ensures y[..n] + tail == y
  {
  }

  lemma LeadingV(x: string, hasV: bool, y: string)
    requires hasV <==> |x| > 0 && x[0] == 'v'
    requires y == if hasV then x[1..] else x
    ensures (if hasV then "v" else "") + y == x
  {
  }

  /** The four optional groups of `cvRegex` after the major component. */
  function ScanGroups(z: string): (r: (Option<string>, Option<string>, Option<string>, Option<string>, string))
    ensures Tagged('.', r.0) + (Tagged('.', r.1) + (Tagged('-', r.2) + (Tagged('+', r.3) + r.4))) == z
  {
    var (minor, z1) := Group('.', CvChar, z);
    var (patch, z2) := Group('.', CvChar, z1);
    var (pre, z3) := Group('-', PreChar, z2);
    var (build, z4) := Group('+', PreChar, z3);
    (minor, patch, pre, build, z4)
  }

  /** The anchored pattern `^cvRegex$`: the token whose text is exactly `x`, if there is one. */
  function MatchCv(x: string): (r: Option<Cv>)
    ensures r.Some? ==> ValidCv(r.value) && CvText(r.value) == x
  {
    var (cv, rest) := ScanCv(x);
    if ValidCv(cv) && rest == [] then
      assert CvText(cv) + [] == CvText(cv);
      Some(cv)
    else None
  }

  /** Every valid token is recognised from its own text: the version pattern is unambiguous. */
  lemma MatchCvText(cv: Cv)
    requires ValidCv(cv)
    ensures MatchCv(CvText(cv)) == Some(cv)
  {
    ScanCvText(cv);
  }

  lemma ScanCvText(cv: Cv)
    requires ValidCv(cv)
    ensures ScanCv(CvText(cv)) == (cv, [])
  {
    var x := CvText(cv);
    var t := Tagged('.', cv.minor) + (Tagged('.', cv.patch) + (Tagged('-', cv.pre) + (Tagged('+', cv.build) + [])));
    CvTextThenIs(cv, []);
    assert x + [] == x;
    assert x == (if cv.v then "v" else "") + (cv.major + t);
    assert In(CvChar, cv.major[0]);
    var hasV := |x| > 0 && x[0] == 'v';
    assert hasV == cv.v;
    var y := if hasV then x[1..] else x;
    assert y == cv.major + t;
    TailHead(cv);
    SpanOf(CvChar, cv.major, t);
    assert y[..|cv.major|] == cv.major;
    assert y[|cv.major|..] == t;
    ScanGroupsOf(cv);
  }

  /** After the major component comes '.', '-', '+' or nothing. */
  lemma TailHead(cv: Cv)
    ensures var t := Tagged('.', cv.minor) + (Tagged('.', cv.patch) + (Tagged('-', cv.pre) + (Tagged('+', cv.build) + [])));
            t == [] || t[0] == '.' || t[0] == '-' || t[0] == '+'
  {
  }

  lemma ScanGroupsOf(cv: Cv)
    requires ValidCv(cv)
    ensures ScanGroups(Tagged('.', cv.minor) + (Tagged('.', cv.patch) + (Tagged('-', cv.pre) + (Tagged('+', cv.build) + []))))
            == (cv.minor, cv.patch, cv.pre, cv.build, [])
  {
    var r3 := Tagged('+', cv.build) + [];
    var r2 := Tagged('-', cv.pre) + r3;
    var r1 := Tagged('.', cv.patch) + r2;
    assert r3 == [] || r3[0] == '+';
    assert r2 == [] || r2[0] == '-' || r2[0] == '+';
    assert cv.minor.None? ==> r1 == r2;
    assert r1 == [] || r1[0] == '.' || r1[0] == '-' || r1[0] == '+';
    GroupOf('.', CvChar, cv.minor, r1);
    GroupOf('.', CvChar, cv.patch, r2);
    GroupOf('-', PreChar, cv.pre, r3);
    GroupOf('+', PreChar, cv.build, []);
  }

  /** The nine operator tokens of the `constraintOps` table (constraints.go:71-81). */
  const OpTokens: set<string> := {"", "=", "!=", ">", "<", ">=", "=>", "<=", "=<"}

  /**
   * The captures of the clause pattern `^\s*(op)\s*(cv)\s*$`, with the white
   * space around them. When there is no operator all leading white space is
   * counted before it.
   */
  datatype ClauseMatch = ClauseMatch(lead: string, op: string, gap: string, cv: Cv, trail: string)

  function ClauseText(m: ClauseMatch): string
  {
    m.lead + (m.op + (m.gap + (CvText(m.cv) + m.trail)))
  }

  predicate ValidClause(m: ClauseMatch)
  {
    && All(Space, m.lead)
    && m.op in OpTokens
    && All(Space, m.gap)
    && (m.op == "" ==> m.gap == "")
    && ValidCv(m.cv)
    && All(Space, m.trail)
  }

  /** `s` cut after its longest prefix in class `k`. */
  function SpanSplit(k: Class, s: string): (r: (string, string))
    ensures r.0 + r.1 == s
    ensures All(k, r.0) && (r.1 == [] || !In(k, r.1[0]))
  {
    var n := Span(k, s);
    SplitAtSpan(s, n, s[n..]);
    (s[..n], s[n..])
  }

  lemma SpanSplitOf(k: Class, a: string, b: string)
    requires All(k, a)
    requires b == [] || !In(k, b[0])
    ensures SpanSplit(k, a + b) == (a, b)
  {
    SpanOf(k, a, b);
    assert (a + b)[..|a|] == a;
    assert (a + b)[|a|..] == b;
  }

  /**
   * The anchored clause pattern. The operator is the whole run of operator
   * characters, since a version never starts with one; the version is the
   * run of non-space characters after it, and only white space may follow.
   */
  function MatchClause(s: string): (r: Option<ClauseMatch>)
    ensures r.Some? ==> ValidClause(r.value) && ClauseText(r.value) == s
  {
    var (lead, t) := SpanSplit(Space, s);
    var (op, u) := SpanSplit(OpChar, t);
    var (gap, w) := SpanSplit(Space, u);
    var (word, trail) := SpanSplit(NonSpace, w);
    match MatchCv(word)
    case None => None
    case Some(cv) =>
      var m := ClauseMatch(lead, op, gap, cv, trail);
      if ValidClause(m) then Some(m) else None
  }

  lemma OpTokenChars(op: string)
    requires op in OpTokens
    ensures All(OpChar, op)
  {
  }

  /** Every valid clause is recognised from its own text, captures and white space included. */
  lemma MatchClauseText(m: ClauseMatch)
    requires ValidClause(m)
    ensures MatchClause(ClauseText(m)) == Some(m)
  {
    var x := CvText(m.cv);
    var rest3 := x + m.trail;
    var rest2 := m.gap + rest3;
    var rest1 := m.op + rest2;
    ClauseHeads(m);
    SpanSplitOf(Space, m.lead, rest1);
    SpanSplitOf(OpChar, m.op, rest2);
    SpanSplitOf(Space, m.gap, rest3);
    VersionWord(m.cv, m.trail);
    MatchCvText(m.cv);
  }

  /** Where each white-space or operator run of a clause text ends. */
  lemma ClauseHeads(m: ClauseMatch)
    requires ValidClause(m)
    ensures !In(Space, (CvText(m.cv) + m.trail)[0])
    ensures !In(OpChar, (CvText(m.cv) + m.trail)[0])
    ensures !In(OpChar, (m.gap + (CvText(m.cv) + m.trail))[0])
    ensures !In(Space, (m.op + (m.gap + (CvText(m.cv) + m.trail)))[0])
  {
    var x := CvText(m.cv);
    CvTextChars(m.cv);
    OpTokenChars(m.op);
    var rest3 := x + m.trail;
    assert rest3[0] == x[0];
    var rest2 := m.gap + rest3;
    assert rest2[0] == if m.gap == [] then x[0] else m.gap[0];
    var rest1 := m.op + rest2;
    assert rest1[0] == if m.op == [] then x[0] else m.op[0];
  }

  /** The version text is the whole run of non-space characters. */
  lemma VersionWord(cv: Cv, trail: string)
    requires ValidCv(cv) && All(Space, trail)
    ensures SpanSplit(NonSpace, CvText(cv) + trail) == (CvText(cv), trail)
  {
    var x := CvText(cv);
    CvTextChars(cv);
    assert All(NonSpace, x) by {
      forall i | 0 <= i < |x| ensures In(NonSpace, x[i]) {
        assert CvTextChar(x[i]);
      }
    }
    SpanSplitOf(NonSpace, x, trail);
  }

  /** The clause pattern accepts exactly the texts of valid clauses. */
  lemma MatchClauseExactly(s: string)
    ensures MatchClause(s).Some? <==> exists m :: ValidClause(m) && ClauseText(m) == s
  {
    if m :| ValidClause(m) && ClauseText(m) == s {
      MatchClauseText(m);
    }
  }
}
