/**
 * The pieces of Go's `strings` and `strconv` packages that the constraint
 * code relies on: `strings.Index`, `strings.Replace(s, old, new, 1)`,
 * `strings.Split`, `strings.ToLower`, `strconv.ParseInt(s, 10, 32)` on digit
 * strings and decimal formatting of a natural number.
 */
module StringOps {

  /** `t` occurs in `s` starting at position `k`. */
  predicate OccursAt(s: string, t: string, k: int)
  {
    0 <= k && k + |t| <= |s| && s[k..k + |t|] == t
  }

  lemma OccursAtTail(s: string, t: string, k: int)
    requires |s| > 0 && k >= 1
    ensures OccursAt(s, t, k) <==> OccursAt(s[1..], t, k - 1)
  {
    if k + |t| <= |s| {
      assert s[1..][k - 1..k - 1 + |t|] == s[k..k + |t|];
    }
  }

  /** `strings.Index`: the first position where `t` occurs in `s`, or -1 when it does not occur. */
  function Index(s: string, t: string): (k: int)
    ensures -1 <= k
    ensures k >= 0 ==> OccursAt(s, t, k)
    ensures forall j :: 0 <= j && (k < 0 || j < k) ==> !OccursAt(s, t, j)
    decreases |s|
  {
    if |s| < |t| then -1
    else if s[..|t|] == t then 0
    else
      var k := Index(s[1..], t);
      assert forall j :: 1 <= j ==> (OccursAt(s, t, j) <==> OccursAt(s[1..], t, j - 1)) by {
        forall j | 1 <= j ensures OccursAt(s, t, j) <==> OccursAt(s[1..], t, j - 1) {
          OccursAtTail(s, t, j);
        }
      }
      if k < 0 then -1 else k + 1
  }

  /** `strings.Replace(s, old, new, 1)`: the first occurrence of `pat`, if any, replaced by `rep`. */
  function ReplaceFirst(s: string, pat: string, rep: string): string
  {
    var k := Index(s, pat);
    if k < 0 then s else s[..k] + rep + s[k + |pat|..]
  }

  /**
   * When no occurrence of `t` starts inside `a`, replacing the first
   * occurrence of `t` in `a + t + b` replaces exactly the `t` after `a`.
   */
  lemma ReplaceFirstAt(a: string, t: string, b: string, rep: string)
    requires forall j :: 0 <= j < |a| ==> !OccursAt(a + t + b, t, j)
    ensures Index(a + t + b, t) == |a|
    ensures ReplaceFirst(a + t + b, t, rep) == a + rep + b
  {
    var s := a + t + b;
    assert s[|a|..|a| + |t|] == t;
    assert OccursAt(s, t, |a|);
    var k := Index(s, t);
    assert k == |a|;
    assert s[..k] == a;
    assert s[k + |t|..] == b;
  }

  /**
   * A marker character that starts `t` and does not occur in `a` keeps every
   * earlier occurrence of `t` out of `a`.
   */
  lemma MarkerFree(a: string, t: string, b: string, c: char)
    requires |t| > 0 && t[0] == c && c !in a
    ensures forall j :: 0 <= j < |a| ==> !OccursAt(a + t + b, t, j)
  {
    var s := a + t + b;
    forall j | 0 <= j < |a| ensures !OccursAt(s, t, j) {
      assert s[j] == a[j] != c;
      if j + |t| <= |s| {
        assert s[j..j + |t|][0] == s[j];
      }
    }
  }

  /** The inverse of `Split`: the parts glued back together with `sep` between them. */
  function Join(parts: seq<string>, sep: string): string
  {
    if |parts| == 0 then ""
    else if |parts| == 1 then parts[0]
    else parts[0] + sep + Join(parts[1..], sep)
  }

  /**
   * `strings.Split(s, sep)` for a non-empty separator: the text between the
   * leftmost non-overlapping occurrences of `sep`. There is always at least
   * one part.
   */
  function Split(s: string, sep: string): (parts: seq<string>)
    requires |sep| > 0
    ensures |parts| >= 1
    decreases |s|
  {
    var k := Index(s, sep);
    if k < 0 then [s] else [s[..k]] + Split(s[k + |sep|..], sep)
  }

  /**
   * Joining the parts gives the text back, and no part contains the
   * separator. The first cut is at the leftmost occurrence, which pins the
   * parts down even when occurrences of `sep` overlap.
   */
  lemma SplitJoin(s: string, sep: string)
    requires |sep| > 0
    ensures Join(Split(s, sep), sep) == s
    ensures forall i :: 0 <= i < |Split(s, sep)| ==> Index(Split(s, sep)[i], sep) < 0
    ensures |Split(s, sep)| > 1 <==> Index(s, sep) >= 0
    ensures |Split(s, sep)| > 1 ==> |Split(s, sep)[0]| == Index(s, sep) && Split(s, sep)[0] == s[..Index(s, sep)]
  {
    SplitParts(s, sep);
    SplitFirstCut(s, sep);
  }

  /** The round trip and the separator-free parts, by induction on the text. */
  lemma {:induction false} SplitParts(s: string, sep: string)
    requires |sep| > 0
    ensures Join(Split(s, sep), sep) == s
    ensures forall i :: 0 <= i < |Split(s, sep)| ==> Index(Split(s, sep)[i], sep) < 0
    decreases |s|
  {
    var k := Index(s, sep);
    if k >= 0 {
      SplitParts(s[k + |sep|..], sep);
      assert s == s[..k] + sep + s[k + |sep|..];
      PrefixBeforeIndex(s, sep);
      var parts := Split(s, sep);
      assert parts[1..] == Split(s[k + |sep|..], sep);
    }
  }

  /** The text before the leftmost occurrence of `sep` holds no occurrence of it. */
  lemma PrefixBeforeIndex(s: string, sep: string)
    requires |sep| > 0 && Index(s, sep) >= 0
    ensures Index(s[..Index(s, sep)], sep) < 0
  {
    var k := Index(s, sep);
    forall j | 0 <= j ensures !OccursAt(s[..k], sep, j) {
      if OccursAt(s[..k], sep, j) {
        assert s[..k][j..j + |sep|] == s[j..j + |sep|];
        assert OccursAt(s, sep, j);
      }
    }
  }

  /** The first part of a split ends at the leftmost occurrence of the separator. */
  lemma SplitFirstCut(s: string, sep: string)
    requires |sep| > 0
    ensures |Split(s, sep)| > 1 <==> Index(s, sep) >= 0
    ensures |Split(s, sep)| > 1 ==> |Split(s, sep)[0]| == Index(s, sep) && Split(s, sep)[0] == s[..Index(s, sep)]
  {
    var k := Index(s, sep);
    if k >= 0 {
      assert Split(s, sep) == [s[..k]] + Split(s[k + |sep|..], sep);
    } else {
      assert Split(s, sep) == [s];
    }
  }

  /** A text without the separator is one part on its own. */
  lemma SplitNoSeparator(s: string, sep: string)
    requires |sep| > 0 && Index(s, sep) < 0
    ensures Split(s, sep) == [s]
  {
  }

  /** Splitting `a + sep + b` where `a` holds no `sep` gives `a` and then the parts of `b`. */
  lemma SplitAt(a: string, sep: string, b: string)
    requires |sep| > 0 && Index(a, sep) < 0
    requires forall j :: 0 <= j < |a| ==> !OccursAt(a + sep + b, sep, j)
    ensures Split(a + sep + b, sep) == [a] + Split(b, sep)
  {
    ReplaceFirstAt(a, sep, b, "");
    var s := a + sep + b;
    assert s[..|a|] == a;
    assert s[|a| + |sep|..] == b;
  }

  /** A text without the first character of the separator is one part on its own. */
  lemma SplitAbsent(s: string, sep: string)
    requires |sep| > 0 && sep[0] !in s
    ensures Split(s, sep) == [s]
  {
  }

  /** A character in neither the parts nor the separator is not in their join. */
  lemma {:induction false} JoinAvoids(parts: seq<string>, sep: string, c: char)
    requires forall i :: 0 <= i < |parts| ==> c !in parts[i]
    requires c !in sep
    ensures c !in Join(parts, sep)
  {
    if |parts| > 1 {
      JoinAvoids(parts[1..], sep, c);
    }
  }

  /** A one-character separator that does not occur leaves the text whole. */
  lemma SplitWithout(s: string, sep: string)
    requires |sep| == 1 && sep[0] !in s
    ensures Split(s, sep) == [s]
  {
  }

  /** A one-character separator occurring once splits the text in two. */
  lemma SplitPair(a: string, sep: string, b: string)
    requires |sep| == 1 && sep[0] !in a && sep[0] !in b
    ensures Split(a + sep + b, sep) == [a, b]
  {
    SplitWithout(a, sep);
    MarkerFree(a, sep, b, sep[0]);
    SplitAt(a, sep, b);
    SplitWithout(b, sep);
  }

  /** ASCII lower-casing of one character. */
  function LowerChar(c: char): char
  {
    if 'A' <= c <= 'Z' then (c as int + 32) as char else c
  }

  /** `strings.ToLower`, on ASCII letters. */
  function ToLower(s: string): (r: string)
    ensures |r| == |s|
    ensures forall i :: 0 <= i < |s| ==> r[i] == LowerChar(s[i])
  {
    if s == [] then [] else [LowerChar(s[0])] + ToLower(s[1..])
  }

  predicate IsDigit(c: char)
  {
    '0' <= c <= '9'
  }

  /** A non-empty string of decimal digits. */
  predicate IsDigits(s: string)
  {
    |s| > 0 && forall i :: 0 <= i < |s| ==> IsDigit(s[i])
  }

  /** The value of a string of decimal digits, leading zeros allowed. */
  function DigitsValue(s: string): nat
    requires forall i :: 0 <= i < |s| ==> IsDigit(s[i])
  {
    if s == [] then 0
    else
      assert IsDigit(s[|s| - 1]);
      10 * DigitsValue(s[..|s| - 1]) + (s[|s| - 1] as int - '0' as int)
  }

  const MaxInt32: nat := 0x7FFF_FFFF

  /**
   * `strconv.ParseInt(s, 10, 32)` succeeds on `s`. The strings it is applied
   * to come from a class of digits, `x`, `X`, `*` and `|`, so signs never arise.
   */
  predicate ParsesInt32(s: string)
  {
    IsDigits(s) && DigitsValue(s) <= MaxInt32
  }

  function DigitChar(d: nat): char
    requires d < 10
  {
    ('0' as int + d) as char
  }

  /** `%d` formatting: the decimal digits of `n`, without leading zeros. */
  function NatToString(n: nat): (s: string)
    ensures IsDigits(s)
    ensures |s| > 1 ==> s[0] != '0'
  {
    if n < 10 then [DigitChar(n)] else NatToString(n / 10) + [DigitChar(n % 10)]
  }

  /** Formatting and parsing a natural number are inverse. */
  lemma {:induction false} NatToStringValue(n: nat)
    ensures DigitsValue(NatToString(n)) == n
  {
    var s := NatToString(n);
    if n >= 10 {
      NatToStringValue(n / 10);
      assert s[..|s| - 1] == NatToString(n / 10);
    }
  }
}
