/** String operations the loader and the search API rely on, written to
    behave like the Python and SQLite operations they stand for:
    `str.strip()`, `str.rstrip(ch)`, `str.replace(old, new)`, `str(n)` for a
    natural number, SQLite's BINARY text ordering and its `LIKE`. */
module Text {

  /** Python's `str.isspace()` on one character: the six ASCII controls
      TAB..CR and FS..US, the space, and the Unicode separators. */
  predicate IsSpace(c: char)
  {
    || ('\t' <= c <= '\r')
    || ('\U{1C}' <= c <= ' ')
    || c == '\U{85}' || c == '\U{A0}' || c == '\U{1680}'
    || ('\U{2000}' <= c <= '\U{200A}')
    || c == '\U{2028}' || c == '\U{2029}' || c == '\U{202F}'
    || c == '\U{205F}' || c == '\U{3000}'
  }

  predicate AllSpace(s: string)
  {
    forall i :: 0 <= i < |s| ==> IsSpace(s[i])
  }

  /** `s.lstrip()` */
  function LStrip(s: string): (r: string)
    ensures |r| <= |s| && r == s[|s| - |r|..]
    ensures AllSpace(s[..|s| - |r|])
    ensures r == [] || !IsSpace(r[0])
  {
    if s == [] || !IsSpace(s[0]) then s else LStrip(s[1..])
  }

  /** `s.rstrip()` */
  function RStrip(s: string): (r: string)
    ensures |r| <= |s| && r == s[..|r|]
    ensures AllSpace(s[|r|..])
    ensures r == [] || !IsSpace(r[|r| - 1])
  {
    if s == [] || !IsSpace(s[|s| - 1]) then s else RStrip(s[..|s| - 1])
  }

  /** `s.strip()`: the result is a slice of `s` that neither starts nor ends
      with whitespace, and everything cut off on either side is whitespace. */
  function Strip(s: string): (r: string)
    ensures r == [] || (!IsSpace(r[0]) && !IsSpace(r[|r| - 1]))
    ensures exists i, j :: 0 <= i <= j <= |s| && r == s[i..j] && AllSpace(s[..i]) && AllSpace(s[j..])
  {
    StripSlice(s);
    RStrip(LStrip(s))
  }

  /** `rstrip` after `lstrip` keeps a slice with whitespace on either side. */
  lemma StripSlice(s: string)
    ensures var r := RStrip(LStrip(s));
      && (r == [] || (!IsSpace(r[0]) && !IsSpace(r[|r| - 1])))
      && exists i, j :: 0 <= i <= j <= |s| && r == s[i..j] && AllSpace(s[..i]) && AllSpace(s[j..])
  {
    var l := LStrip(s);
    var r := RStrip(l);
    var i := |s| - |l|;
    var j := i + |r|;
    assert r != [] ==> r[0] == l[0];
    assert r == s[i..j];
    assert AllSpace(s[..i]);
    assert s[j..] == l[|r|..];
    assert AllSpace(s[j..]);
  }

  /** Stripping twice changes nothing. */
  lemma StripIdempotent(s: string)
    ensures Strip(Strip(s)) == Strip(s)
  {
    var t := Strip(s);
    assert LStrip(t) == t;
    assert RStrip(t) == t;
  }

  /** A whitespace character at the end is cut off by `lstrip` along with
      everything else when nothing else survives, and kept otherwise. */
  lemma {:induction false} LStripSnoc(s: string, c: char)
    requires IsSpace(c)
    ensures LStrip(s + [c]) == if LStrip(s) == [] then [] else LStrip(s) + [c]
  {
    if s != [] && IsSpace(s[0]) {
      assert (s + [c])[1..] == s[1..] + [c];
      LStripSnoc(s[1..], c);
    }
  }

  /** Appending whitespace does not change what `strip` keeps. */
  lemma StripSnocSpace(s: string, c: char)
    requires IsSpace(c)
    ensures Strip(s + [c]) == Strip(s)
  {
    LStripSnoc(s, c);
    var l := LStrip(s);
    if l != [] {
      assert (l + [c])[..|l|] == l;
    }
  }

  /** `s.rstrip(c)`: removes every trailing occurrence of `c`. */
  function RStripChar(s: string, c: char): (r: string)
    ensures |r| <= |s| && r == s[..|r|]
    ensures forall i :: |r| <= i < |s| ==> s[i] == c
    ensures r == [] || r[|r| - 1] != c
  {
    if s == [] || s[|s| - 1] != c then s else RStripChar(s[..|s| - 1], c)
  }

  /** `s.replace(pat, rep)`: replaces, from left to right, every
      non-overlapping occurrence of the non-empty `pat` by `rep`. */
  function Replace(s: string, pat: string, rep: string): string
    requires |pat| > 0
    decreases |s|
  {
    if |s| < |pat| then s
    else if s[..|pat|] == pat then rep + Replace(s[|pat|..], pat, rep)
    else [s[0]] + Replace(s[1..], pat, rep)
  }

  /** A string in which the first character of `pat` never occurs holds no
      occurrence of `pat`, so `Replace` leaves it alone. */
  lemma {:induction false} ReplaceAbsent(s: string, pat: string, rep: string)
    requires |pat| > 0 && pat[0] !in s
    ensures Replace(s, pat, rep) == s
  {
    if |s| >= |pat| {
      assert s[..|pat|][0] == s[0] != pat[0];
      assert forall c :: c in s[1..] ==> c in s;
      ReplaceAbsent(s[1..], pat, rep);
    }
  }

  /** Characters other than those of `rep` that `Replace` outputs come from
      `s`; in particular a character in neither `s` nor `rep` never appears. */
  lemma {:induction false} ReplaceChars(s: string, pat: string, rep: string, c: char)
    requires |pat| > 0 && c !in s && c !in rep
    ensures c !in Replace(s, pat, rep)
  {
    if |s| >= |pat| {
      if s[..|pat|] == pat {
        assert forall x :: x in s[|pat|..] ==> x in s;
        ReplaceChars(s[|pat|..], pat, rep, c);
      } else {
        assert forall x :: x in s[1..] ==> x in s;
        ReplaceChars(s[1..], pat, rep, c);
      }
    }
  }

  /** The `n` characters of `s` from offset `i`. */
  function Window(s: string, i: nat, n: nat): string
    requires i + n <= |s|
  {
    s[i..i + n]
  }

  /** No occurrence of `pat` in `a + m` starts inside `a` and ends inside
      `m`. */
  predicate NoStraddle(a: string, m: string, pat: string)
  {
    forall i: nat :: i < |a| && |a| < i + |pat| <= |a| + |m| ==> Window(a + m, i, |pat|) != pat
  }

  lemma NoStraddleShift(a: string, m: string, pat: string, d: nat)
    requires d <= |a| && NoStraddle(a, m, pat)
    ensures NoStraddle(a[d..], m, pat)
  {
    forall i: nat | i < |a| - d && |a| - d < i + |pat| <= |a| - d + |m|
      ensures Window(a[d..] + m, i, |pat|) != pat
    {
      assert Window(a[d..] + m, i, |pat|) == Window(a + m, i + d, |pat|);
    }
  }

  /** Where no occurrence straddles the seam, replacing in `a + m` is
      replacing in each part. */
  lemma {:induction false} ReplaceSplit(a: string, m: string, pat: string, rep: string)
    requires |pat| > 0 && NoStraddle(a, m, pat)
    ensures Replace(a + m, pat, rep) == Replace(a, pat, rep) + Replace(m, pat, rep)
    decreases |a|, 1
  {
    var s := a + m;
    if a == [] {
      assert s == m;
    } else if |s| < |pat| {
      assert Replace(s, pat, rep) == s && Replace(a, pat, rep) == a && Replace(m, pat, rep) == m;
    } else if |a| >= |pat| && a[..|pat|] == pat {
      ReplaceSplitAt(a, m, pat, rep);
    } else {
      ReplaceSplitCons(a, m, pat, rep);
    }
  }

  /** `ReplaceSplit` when `a` starts with an occurrence. */
  lemma {:induction false} ReplaceSplitAt(a: string, m: string, pat: string, rep: string)
    requires |pat| > 0 && NoStraddle(a, m, pat)
    requires |a| >= |pat| && a[..|pat|] == pat
    ensures Replace(a + m, pat, rep) == Replace(a, pat, rep) + Replace(m, pat, rep)
    decreases |a|, 0
  {
    var a' := a[|pat|..];
    NoStraddleShift(a, m, pat, |pat|);
    ReplaceSplit(a', m, pat, rep);
    CutInside(a, m, |pat|);
    ReplaceAt(a, pat, rep);
    ReplaceAt(a + m, pat, rep);
    assert rep + (Replace(a', pat, rep) + Replace(m, pat, rep))
      == (rep + Replace(a', pat, rep)) + Replace(m, pat, rep);
  }

  /** `ReplaceSplit` when no occurrence starts at the front of `a + m`. */
  lemma {:induction false} ReplaceSplitCons(a: string, m: string, pat: string, rep: string)
    requires |pat| > 0 && NoStraddle(a, m, pat) && a != [] && |a + m| >= |pat|
    requires !(|a| >= |pat| && a[..|pat|] == pat)
    ensures Replace(a + m, pat, rep) == Replace(a, pat, rep) + Replace(m, pat, rep)
    decreases |a|, 0
  {
    var s := a + m;
    assert s[..|pat|] != pat by {
      if |a| >= |pat| {
        CutInside(a, m, |pat|);
      } else {
        assert Window(s, 0, |pat|) != pat;
      }
    }
    CutInside(a, m, 1);
    NoStraddleShift(a, m, pat, 1);
    ReplaceSplit(a[1..], m, pat, rep);
    ReplaceCons(a, pat, rep);
    ReplaceCons(s, pat, rep);
    assert [a[0]] + (Replace(a[1..], pat, rep) + Replace(m, pat, rep))
      == ([a[0]] + Replace(a[1..], pat, rep)) + Replace(m, pat, rep);
  }

  /** Cutting `a + m` at a point inside `a`. */
  lemma CutInside(a: string, m: string, k: nat)
    requires k <= |a|
    ensures (a + m)[..k] == a[..k] && (a + m)[k..] == a[k..] + m
  {
  }

  /** An occurrence at the front is replaced. */
  lemma ReplaceAt(s: string, pat: string, rep: string)
    requires |pat| > 0 && |s| >= |pat| && s[..|pat|] == pat
    ensures Replace(s, pat, rep) == rep + Replace(s[|pat|..], pat, rep)
  {
  }

  /** Where no occurrence starts at the front, the first character is copied. */
  lemma ReplaceCons(s: string, pat: string, rep: string)
    requires |pat| > 0 && s != [] && (|s| >= |pat| ==> s[..|pat|] != pat)
    ensures Replace(s, pat, rep) == [s[0]] + Replace(s[1..], pat, rep)
  {
    if |s| < |pat| {
      assert Replace(s[1..], pat, rep) == s[1..];
      assert s == [s[0]] + s[1..];
    }
  }

  /** A pattern whose first character does not recur in it: two of its
      occurrences never overlap. */
  predicate HeadUnique(pat: string)
  {
    |pat| > 0 && pat[0] !in pat[1..]
  }

  /** A text holding `pat[0]` at its offset `k`, for `0 < k < |pat|`, is
      not `pat`. */
  lemma HeadInside(w: string, pat: string, k: nat)
    requires HeadUnique(pat) && |w| == |pat| && 0 < k < |pat| && w[k] == pat[0]
    ensures w != pat
  {
    assert pat[k] == pat[1..][k - 1];
  }

  /** Every occurrence of a head-unique pattern is replaced, wherever it
      stands: the text before it and the text after it are processed on
      their own. */
  lemma ReplaceOccurrence(a: string, pat: string, rep: string, b: string)
    requires HeadUnique(pat)
    ensures Replace(a + pat + b, pat, rep) == Replace(a, pat, rep) + rep + Replace(b, pat, rep)
  {
    var m := pat + b;
    HeadBlocksStraddle(a, m, pat);
    ReplaceSplit(a, m, pat, rep);
    assert m[..|pat|] == pat && m[|pat|..] == b;
    assert a + pat + b == a + m;
  }

  /** A character the pattern does not contain is copied, and the text on
      either side of it is processed on its own. */
  lemma ReplaceAroundChar(a: string, c: char, b: string, pat: string, rep: string)
    requires |pat| > 0 && c !in pat
    ensures Replace(a + [c] + b, pat, rep) == Replace(a, pat, rep) + [c] + Replace(b, pat, rep)
  {
    var m := [c] + b;
    CharBlocksStraddle(a, m, pat);
    ReplaceSplit(a, m, pat, rep);
    ReplaceConsChar(c, b, pat, rep);
    assert a + [c] + b == a + m;
  }

  /** A character the pattern does not contain is copied. */
  lemma ReplaceConsChar(c: char, b: string, pat: string, rep: string)
    requires |pat| > 0 && c !in pat
    ensures Replace([c] + b, pat, rep) == [c] + Replace(b, pat, rep)
  {
    var m := [c] + b;
    assert |m| >= |pat| ==> m[..|pat|] != pat by {
      if |m| >= |pat| {
        assert m[..|pat|][0] == c != pat[0];
      }
    }
    ReplaceCons(m, pat, rep);
    assert m[1..] == b;
  }

  /** No occurrence of a pattern whose first character does not recur in
      it straddles into a text that starts with that character. */
  lemma HeadBlocksStraddle(a: string, m: string, pat: string)
    requires HeadUnique(pat) && m != [] && m[0] == pat[0]
    ensures NoStraddle(a, m, pat)
  {
    forall i: nat | i < |a| && |a| < i + |pat| <= |a| + |m|
      ensures Window(a + m, i, |pat|) != pat
    {
      HeadInside(Window(a + m, i, |pat|), pat, |a| - i);
    }
  }

  /** No occurrence of the pattern straddles into a text that starts with a
      character the pattern does not contain. */
  lemma CharBlocksStraddle(a: string, m: string, pat: string)
    requires m != [] && m[0] !in pat
    ensures NoStraddle(a, m, pat)
  {
    forall i: nat | i < |a| && |a| < i + |pat| <= |a| + |m|
      ensures Window(a + m, i, |pat|) != pat
    {
      assert Window(a + m, i, |pat|)[|a| - i] == m[0];
    }
  }

  /** A text `x` that starts with `pat[0]`, departs from `pat` at its second
      character and holds `pat[0]` nowhere else is copied unchanged, and the
      text on either side of it is processed on its own. */
  lemma ReplaceAroundMismatch(a: string, x: string, b: string, pat: string, rep: string)
    requires HeadUnique(pat) && |pat| >= 2 && |x| >= 2
    requires x[0] == pat[0] && x[1] != pat[1] && pat[0] !in x[1..]
    ensures Replace(a + x + b, pat, rep) == Replace(a, pat, rep) + x + Replace(b, pat, rep)
  {
    var m := x + b;
    HeadBlocksStraddle(a, m, pat);
    ReplaceSplit(a, m, pat, rep);
    ReplaceMismatchFirst(x, b, pat, rep);
    assert a + x + b == a + m;
  }

  lemma ReplaceMismatchFirst(x: string, b: string, pat: string, rep: string)
    requires HeadUnique(pat) && |pat| >= 2 && |x| >= 2
    requires x[0] == pat[0] && x[1] != pat[1] && pat[0] !in x[1..]
    ensures Replace(x + b, pat, rep) == x + Replace(b, pat, rep)
  {
    var m := x + b;
    var y := x[1..];
    MismatchAtSecond(m, pat);
    ReplaceCons(m, pat, rep);
    assert m[1..] == y + b;
    ReplaceNoHead(y, b, pat, rep);
    assert x == [x[0]] + y;
  }

  /** A text that differs from the pattern in its second character does
      not start with it. */
  lemma MismatchAtSecond(m: string, pat: string)
    requires |m| >= 2 && |pat| >= 2 && m[1] != pat[1]
    ensures |m| >= |pat| ==> m[..|pat|] != pat
  {
    if |m| >= |pat| {
      assert m[..|pat|][1] == m[1];
    }
  }

  /** A text without `pat[0]` is copied unchanged in front of whatever
      follows it. */
  lemma ReplaceNoHead(y: string, b: string, pat: string, rep: string)
    requires |pat| > 0 && pat[0] !in y
    ensures Replace(y + b, pat, rep) == y + Replace(b, pat, rep)
  {
    forall i: nat | i < |y| && |y| < i + |pat| <= |y| + |b|
      ensures Window(y + b, i, |pat|) != pat
    {
      assert Window(y + b, i, |pat|)[0] == y[i] != pat[0];
    }
    ReplaceSplit(y, b, pat, rep);
    ReplaceAbsent(y, pat, rep);
  }

  // ---------------------------------------------------------------------
  // Decimal rendering, Python's str() of a non-negative int

  function DigitChar(d: nat): char
    requires d < 10
  {
    "0123456789"[d]
  }

  predicate IsDigit(c: char)
  {
    '0' <= c <= '9'
  }

  function DigitValue(c: char): nat
    requires IsDigit(c)
  {
    (c as int) - ('0' as int)
  }

  /** `str(n)`: the shortest decimal numeral for `n`. */
  function NatToString(n: nat): (r: string)
    ensures |r| >= 1
    ensures forall i :: 0 <= i < |r| ==> IsDigit(r[i])
    ensures r[0] == '0' ==> r == "0"
  {
    if n < 10 then [DigitChar(n)] else NatToString(n / 10) + [DigitChar(n % 10)]
  }

  /** Reads a string of decimal digits back as a number. */
  function ParseDecimal(s: string): nat
    requires forall i :: 0 <= i < |s| ==> IsDigit(s[i])
  {
    if s == [] then 0 else 10 * ParseDecimal(s[..|s| - 1]) + DigitValue(s[|s| - 1])
  }

  /** The numeral written by `NatToString` reads back as the same number, so
      two different counts are never stored as the same text. */
  lemma {:induction false} NatToStringRoundTrip(n: nat)
    ensures ParseDecimal(NatToString(n)) == n
  {
    if n >= 10 {
      NatToStringRoundTrip(n / 10);
      var s := NatToString(n);
      assert s[..|s| - 1] == NatToString(n / 10);
    }
  }

  lemma NatToStringInjective(m: nat, n: nat)
    requires NatToString(m) == NatToString(n)
    ensures m == n
  {
    NatToStringRoundTrip(m);
    NatToStringRoundTrip(n);
  }

  // ---------------------------------------------------------------------
  // SQLite BINARY collation: code-point lexicographic order

  /** `a <= b` under SQLite's default BINARY collation; for Unicode scalar
      values, comparing the UTF-8 bytes orders strings by code points. */
  predicate TextLeq(a: string, b: string): (r: bool)
    ensures a <= b ==> r
  {
    a == [] || (b != [] && (a[0] < b[0] || (a[0] == b[0] && TextLeq(a[1..], b[1..]))))
  }

  lemma {:induction false} TextLeqSelf(a: string)
    ensures TextLeq(a, a)
  {
    if a != [] {
      TextLeqSelf(a[1..]);
    }
  }

  lemma {:induction false} TextLeqTotal(a: string, b: string)
    ensures TextLeq(a, b) || TextLeq(b, a)
  {
    if a != [] && b != [] && a[0] == b[0] {
      TextLeqTotal(a[1..], b[1..]);
    }
  }

  lemma {:induction false} TextLeqTransitive(a: string, b: string, c: string)
    requires TextLeq(a, b) && TextLeq(b, c)
    ensures TextLeq(a, c)
  {
    if a != [] && b != [] && c != [] && a[0] == b[0] == c[0] {
      TextLeqTransitive(a[1..], b[1..], c[1..]);
    }
  }

  lemma {:induction false} TextLeqAntisymmetric(a: string, b: string)
    requires TextLeq(a, b) && TextLeq(b, a)
    ensures a == b
  {
    if a != [] && b != [] {
      TextLeqAntisymmetric(a[1..], b[1..]);
      assert a == [a[0]] + a[1..] && b == [b[0]] + b[1..];
    }
  }

  /** A text `a + x`, with `x` non-empty, sorts after a text `b` of the same
      length as `a` exactly when `a` does not sort before `b`: the common
      prefix decides, and on a tie the longer text is the greater. This is how
      a stored timestamp "YYYY-MM-DD HH:MM:SS" compares with a bare date
      "YYYY-MM-DD". */
  lemma {:induction false} LongerSortsAfter(a: string, x: string, b: string)
    requires |a| == |b| && x != []
    ensures !TextLeq(a + x, b) <==> TextLeq(b, a)
  {
    if a != [] {
      assert (a + x)[0] == a[0];
      assert (a + x)[1..] == a[1..] + x;
      LongerSortsAfter(a[1..], x, b[1..]);
    }
  }

  // ---------------------------------------------------------------------
  // SQLite LIKE without an ESCAPE clause

  /** SQLite folds only the ASCII letters when comparing under LIKE. */
  function FoldCase(c: char): char
  {
    if 'A' <= c <= 'Z' then ((c as int) + 32) as char else c
  }

  /** `s LIKE p`: `%` matches any run of characters, `_` any one character,
      every other character itself up to ASCII case. */
  predicate Like(p: string, s: string): (r: bool)
    ensures r && '%' !in p ==> |s| == |p|
    decreases |p| + |s|
  {
    if p == [] then s == []
    else if p[0] == '%' then Like(p[1..], s) || (s != [] && Like(p, s[1..]))
    else s != [] && (p[0] == '_' || FoldCase(p[0]) == FoldCase(s[0])) && Like(p[1..], s[1..])
  }

  predicate NoWildcards(q: string)
  {
    '%' !in q && '_' !in q
  }

  /** `q` occurs at the start of `s` up to ASCII case. */
  predicate StartsWithFolded(s: string, q: string)
  {
    |q| <= |s| && forall i :: 0 <= i < |q| ==> FoldCase(q[i]) == FoldCase(s[i])
  }

  /** `q` occurs somewhere in `s` up to ASCII case. */
  predicate ContainsFolded(s: string, q: string)
  {
    exists k :: 0 <= k <= |s| && StartsWithFolded(s[k..], q)
  }

  lemma {:induction false} LikePrefix(q: string, s: string)
    requires NoWildcards(q)
    ensures Like(q + "%", s) <==> StartsWithFolded(s, q)
  {
    if q == [] {
      assert q + "%" == "%";
      LikeAnything(s);
    } else {
      assert (q + "%")[1..] == q[1..] + "%";
      assert q[0] in q;
      if s != [] {
        assert forall c :: c in q[1..] ==> c in q;
        LikePrefix(q[1..], s[1..]);
        if StartsWithFolded(s, q) {
          assert StartsWithFolded(s[1..], q[1..]) by {
            forall i | 0 <= i < |q[1..]| ensures FoldCase(q[1..][i]) == FoldCase(s[1..][i]) {
              assert FoldCase(q[i + 1]) == FoldCase(s[i + 1]);
            }
          }
        }
        if Like(q + "%", s) {
          assert StartsWithFolded(s[1..], q[1..]);
          forall i | 0 <= i < |q| ensures FoldCase(q[i]) == FoldCase(s[i]) {
            if i > 0 {
              assert FoldCase(q[1..][i - 1]) == FoldCase(s[1..][i - 1]);
            }
          }
        }
      }
    }
  }

  lemma {:induction false} LikeAnything(s: string)
    ensures Like("%", s)
  {
    if s != [] {
      LikeAnything(s[1..]);
    }
  }

  /** A text that starts with `q` up to ASCII case matches `q%`, whatever
      wildcards `q` holds: a `%` in `q` can match the one character it
      faces, and a `_` matches any character. */
  lemma {:induction false} LikeFromPrefix(q: string, s: string)
    requires StartsWithFolded(s, q)
    ensures Like(q + "%", s)
    decreases |q|
  {
    var p := q + "%";
    if q == [] {
      assert p == "%";
      LikeAnything(s);
    } else {
      assert p[1..] == q[1..] + "%";
      assert StartsWithFolded(s[1..], q[1..]) by {
        forall i | 0 <= i < |q[1..]| ensures FoldCase(q[1..][i]) == FoldCase(s[1..][i]) {
          assert FoldCase(q[i + 1]) == FoldCase(s[i + 1]);
        }
      }
      LikeFromPrefix(q[1..], s[1..]);
      if q[0] == '%' {
        assert Like(p, s[1..]);
      } else {
        assert FoldCase(q[0]) == FoldCase(s[0]);
      }
    }
  }

  /** A text that contains `q` up to ASCII case matches `%q%`, whatever
      wildcards `q` holds. */
  lemma {:induction false} LikeFromContains(q: string, s: string)
    requires ContainsFolded(s, q)
    ensures Like("%" + q + "%", s)
    decreases |s|
  {
    var p := "%" + q + "%";
    assert p[1..] == q + "%";
    var k :| 0 <= k <= |s| && StartsWithFolded(s[k..], q);
    if k == 0 {
      assert s[k..] == s;
      LikeFromPrefix(q, s);
    } else {
      assert s[1..][k - 1..] == s[k..];
      LikeFromContains(q, s[1..]);
    }
  }

  /** With no wildcard in the query, the pattern `%q%` that the search API
      builds matches exactly the values that contain `q`, ignoring ASCII
      case. */
  lemma {:induction false} LikeContains(q: string, s: string)
    requires NoWildcards(q)
    ensures Like("%" + q + "%", s) <==> ContainsFolded(s, q)
  {
    var p := "%" + q + "%";
    assert p[1..] == q + "%";
    LikePrefix(q, s);
    if StartsWithFolded(s, q) {
      assert s[0..] == s;
    }
    if s != [] {
      LikeContains(q, s[1..]);
      if ContainsFolded(s[1..], q) {
        var k :| 0 <= k <= |s[1..]| && StartsWithFolded(s[1..][k..], q);
        assert s[1..][k..] == s[k + 1..];
      }
      if ContainsFolded(s, q) {
        var k :| 0 <= k <= |s| && StartsWithFolded(s[k..], q);
        if k > 0 {
          assert s[1..][k - 1..] == s[k..];
        }
      }
    } else {
      if ContainsFolded(s, q) {
        var k :| 0 <= k <= |s| && StartsWithFolded(s[k..], q);
        assert k == 0 && s[k..] == s;
      }
    }
  }
}
