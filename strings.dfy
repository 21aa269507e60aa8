/**
 * The string functions of PHP's runtime that the extractor relies on, on
 * `string` (a sequence of characters): implode, explode, trim, strtolower,
 * str_replace, the integer cast of a string and pathinfo's extension.
 */
module Strings {

  // ---------------------------------------------------------------------
  // implode and explode
  // ---------------------------------------------------------------------

  /** implode(sep, xs): the elements of `xs` with `sep` between neighbours. */
  function Join(sep: string, xs: seq<string>): string
  {
    if |xs| == 0 then ""
    else if |xs| == 1 then xs[0]
    else xs[0] + sep + Join(sep, xs[1..])
  }

  /** explode(c, s) for a one-character delimiter: the pieces of `s` between occurrences of `c`. */
  function Split(s: string, c: char): (r: seq<string>)
    ensures |r| >= 1
  {
    if s == [] then [""]
    else if s[0] == c then [""] + Split(s[1..], c)
    else
      var rest := Split(s[1..], c);
      [[s[0]] + rest[0]] + rest[1..]
  }

  /** Appending one more element to a non-empty join adds one separator and the element. */
  lemma {:induction false} JoinSnoc(sep: string, xs: seq<string>, y: string)
    requires xs != []
    ensures Join(sep, xs + [y]) == Join(sep, xs) + sep + y
  {
    if |xs| == 1 {
      assert xs + [y] == [xs[0], y];
    } else {
      assert (xs + [y])[1..] == xs[1..] + [y];
      JoinSnoc(sep, xs[1..], y);
    }
  }

  /** A piece free of the delimiter, put in front of `s`, extends the first piece of `s`. */
  lemma {:induction false} SplitPrefix(x: string, s: string, c: char)
    requires c !in x
    ensures Split(x + s, c) == [x + Split(s, c)[0]] + Split(s, c)[1..]
  {
    if x != [] {
      assert (x + s)[0] == x[0];
      assert (x + s)[1..] == x[1..] + s;
      SplitPrefix(x[1..], s, c);
      assert [x[0]] + (x[1..] + Split(s, c)[0]) == x + Split(s, c)[0];
    } else {
      assert x + s == s;
      assert x + Split(s, c)[0] == Split(s, c)[0];
      assert Split(s, c) == [Split(s, c)[0]] + Split(s, c)[1..];
    }
  }

  /** explode undoes implode when no element contains the delimiter. */
  lemma {:induction false} SplitJoin(xs: seq<string>, c: char)
    requires |xs| >= 1
    requires forall i :: 0 <= i < |xs| ==> c !in xs[i]
    ensures Split(Join([c], xs), c) == xs
  {
    if |xs| == 1 {
      SplitPrefix(xs[0], "", c);
      assert xs[0] + "" == xs[0];
      assert Split("", c) == [""];
      assert Join([c], xs) == xs[0];
    } else {
      var rest := Join([c], xs[1..]);
      SplitJoin(xs[1..], c);
      assert xs[0] + [c] + rest == xs[0] + ([c] + rest);
      SplitPrefix(xs[0], [c] + rest, c);
      assert ([c] + rest)[0] == c;
      assert ([c] + rest)[1..] == rest;
      assert Split([c] + rest, c) == [""] + xs[1..];
      assert xs[0] + "" == xs[0];
      assert [xs[0]] + xs[1..] == xs;
    }
  }

  /** The last character of a join is the last character of its last element. */
  lemma {:induction false} JoinLast(sep: string, xs: seq<string>)
    requires xs != [] && xs[|xs| - 1] != ""
    ensures Join(sep, xs) != ""
    ensures Join(sep, xs)[|Join(sep, xs)| - 1] == xs[|xs| - 1][|xs[|xs| - 1]| - 1]
  {
    if |xs| > 1 {
      var init := xs[..|xs| - 1];
      assert xs == init + [xs[|xs| - 1]];
      JoinSnoc(sep, init, xs[|xs| - 1]);
    }
  }

  /** The first character of a join is the first character of its first element. */
  lemma JoinFirst(sep: string, xs: seq<string>)
    requires xs != [] && xs[0] != ""
    ensures Join(sep, xs) != "" && Join(sep, xs)[0] == xs[0][0]
  {
  }

  /** Concatenation regroups freely. */
  lemma AppendAssoc(a: string, b: string, c: string)
    ensures (a + b) + c == a + (b + c)
  {
  }

  /** The non-empty elements of `xs`, in order: `if ($v !== '') $out[] = $v;` applied in a loop. */
  function NonEmpty(xs: seq<string>): (r: seq<string>)
    ensures |r| <= |xs|
    ensures forall i :: 0 <= i < |r| ==> r[i] != ""
  {
    if xs == [] then []
    else NonEmpty(xs[..|xs| - 1]) + (if xs[|xs| - 1] != "" then [xs[|xs| - 1]] else [])
  }

  /** The filter is empty exactly when every element is "". */
  lemma {:induction false} NonEmptyEmptyIff(xs: seq<string>)
    ensures NonEmpty(xs) == [] <==> forall i :: 0 <= i < |xs| ==> xs[i] == ""
  {
    if xs != [] {
      var init := xs[..|xs| - 1];
      NonEmptyEmptyIff(init);
      assert forall i :: 0 <= i < |init| ==> init[i] == xs[i];
    }
  }

  /** Whatever holds of every non-empty element holds of every element the filter keeps. */
  lemma {:induction false} NonEmptyPreserves(xs: seq<string>, p: string -> bool)
    requires forall i :: 0 <= i < |xs| && xs[i] != "" ==> p(xs[i])
    ensures forall i :: 0 <= i < |NonEmpty(xs)| ==> p(NonEmpty(xs)[i])
  {
    if xs != [] {
      var init := xs[..|xs| - 1];
      assert forall i :: 0 <= i < |init| ==> init[i] == xs[i];
      NonEmptyPreserves(init, p);
    }
  }

  /** A sequence without "" passes the filter unchanged; in particular the filter is idempotent. */
  lemma {:induction false} NonEmptyKeepsAll(xs: seq<string>)
    requires forall i :: 0 <= i < |xs| ==> xs[i] != ""
    ensures NonEmpty(xs) == xs
  {
    if xs != [] {
      var init := xs[..|xs| - 1];
      assert forall i :: 0 <= i < |init| ==> init[i] == xs[i];
      NonEmptyKeepsAll(init);
      assert xs == init + [xs[|xs| - 1]];
    }
  }

  /** Filtering one more element keeps it exactly when it is non-empty. */
  lemma NonEmptySnoc(xs: seq<string>, x: string)
    ensures NonEmpty(xs + [x]) == NonEmpty(xs) + (if x != "" then [x] else [])
  {
    assert (xs + [x])[..|xs|] == xs;
  }

  // ---------------------------------------------------------------------
  // Newline-terminated lines
  // ---------------------------------------------------------------------

  /** Every element followed by a newline, in order: what `$text .= $x . "\n"` builds. */
  function Lines(xs: seq<string>): string
  {
    if xs == [] then "" else Lines(xs[..|xs| - 1]) + xs[|xs| - 1] + "\n"
  }

  /** Newline-terminated lines are the newline-join of the lines and one final empty piece. */
  lemma {:induction false} LinesIsJoin(xs: seq<string>)
    ensures Lines(xs) == Join("\n", xs + [""])
  {
    if xs != [] {
      var init := xs[..|xs| - 1];
      var last := xs[|xs| - 1];
      LinesIsJoin(init);
      if init == [] {
        assert xs + [""] == [last, ""];
      } else {
        assert xs + [""] == (init + [last]) + [""];
        assert init + [""] != [];
        JoinSnoc("\n", init, last);
        JoinSnoc("\n", init + [last], "");
        assert init + [last] == xs;
        // Join(init + [""]) == Join(init) + "\n" + ""
        JoinSnoc("\n", init, "");
      }
    }
  }

  /** Cutting newline-terminated lines at the newlines gives the lines back and one empty remainder. */
  lemma LinesRoundTrip(xs: seq<string>)
    requires forall i :: 0 <= i < |xs| ==> '\n' !in xs[i]
    ensures Split(Lines(xs), '\n') == xs + [""]
  {
    LinesIsJoin(xs);
    SplitJoin(xs + [""], '\n');
  }

  // ---------------------------------------------------------------------
  // trim
  // ---------------------------------------------------------------------

  /** The characters PHP's trim removes by default: " \t\n\r\0\x0B". */
  predicate IsTrimSpace(ch: char)
  {
    ch == ' ' || ch == '\t' || ch == '\n' || ch == '\r' || ch == '\0' || ch == '\U{B}'
  }

  /** ltrim(s): `s` without its leading whitespace. */
  function TrimLeft(s: string): (r: string)
    ensures |r| <= |s| && r == s[|s| - |r|..]
    ensures forall k :: 0 <= k < |s| - |r| ==> IsTrimSpace(s[k])
    ensures r == "" || !IsTrimSpace(r[0])
  {
    if s != [] && IsTrimSpace(s[0]) then TrimLeft(s[1..]) else s
  }

  /** rtrim(s): `s` without its trailing whitespace. */
  function TrimRight(s: string): (r: string)
    ensures |r| <= |s| && r == s[..|r|]
    ensures forall k :: |r| <= k < |s| ==> IsTrimSpace(s[k])
    ensures r == "" || !IsTrimSpace(r[|r| - 1])
  {
    if s != [] && IsTrimSpace(s[|s| - 1]) then TrimRight(s[..|s| - 1]) else s
  }

  /** `r` is `s` less the first `i` and the last |s| - i - |r| characters, all of them whitespace. */
  predicate StripsEnds(s: string, r: string, i: int)
  {
    0 <= i && i + |r| <= |s| && r == s[i..i + |r|]
      && (forall k :: 0 <= k < i ==> IsTrimSpace(s[k]))
      && (forall k :: i + |r| <= k < |s| ==> IsTrimSpace(s[k]))
  }

  /**
   * trim(s): `s` with only its leading and trailing whitespace removed, all
   * of it. The result is empty exactly when `s` is all whitespace.
   */
  function Trim(s: string): (r: string)
    ensures exists i :: StripsEnds(s, r, i)
    ensures r == "" <==> forall k :: 0 <= k < |s| ==> IsTrimSpace(s[k])
    ensures r != "" ==> !IsTrimSpace(r[0]) && !IsTrimSpace(r[|r| - 1])
  {
    TrimBothEnds(s);
    TrimKeepsMiddle(s);
    TrimRight(TrimLeft(s))
  }

  lemma TrimBothEnds(s: string)
    ensures var r := TrimRight(TrimLeft(s));
      && (r == "" <==> forall k :: 0 <= k < |s| ==> IsTrimSpace(s[k]))
      && (r != "" ==> !IsTrimSpace(r[0]) && !IsTrimSpace(r[|r| - 1]))
  {
    var l := TrimLeft(s);
    var r := TrimRight(l);
    assert r != "" ==> r[0] == l[0];
    if r == "" {
      assert l == "";
    } else {
      assert !IsTrimSpace(s[|s| - |l|]);
    }
  }

  lemma TrimKeepsMiddle(s: string)
    ensures StripsEnds(s, TrimRight(TrimLeft(s)), |s| - |TrimLeft(s)|)
  {
    StripBothSides(s, TrimLeft(s), TrimRight(TrimLeft(s)));
  }

  /** A whitespace prefix cut from `s`, then a whitespace suffix cut from what is left. */
  lemma StripBothSides(s: string, l: string, r: string)
    requires |l| <= |s| && l == s[|s| - |l|..]
    requires forall k :: 0 <= k < |s| - |l| ==> IsTrimSpace(s[k])
    requires |r| <= |l| && r == l[..|r|]
    requires forall k :: |r| <= k < |l| ==> IsTrimSpace(l[k])
    ensures StripsEnds(s, r, |s| - |l|)
  {
    var i := |s| - |l|;
    forall k | i + |r| <= k < |s|
      ensures IsTrimSpace(s[k])
    {
      assert s[k] == l[k - i];
    }
  }

  // ---------------------------------------------------------------------
  // strtolower
  // ---------------------------------------------------------------------

  /** strtolower on one character: ASCII letters only. */
  function LowerChar(ch: char): char
  {
    if 'A' <= ch <= 'Z' then (ch as int + 32) as char else ch
  }

  /** strtolower(s), character by character. */
  function Lower(s: string): string
  {
    seq(|s|, i requires 0 <= i < |s| => LowerChar(s[i]))
  }

  // ---------------------------------------------------------------------
  // Decimal numerals: sprintf('%d') and the (int) cast
  // ---------------------------------------------------------------------

  predicate IsDigit(ch: char)
  {
    '0' <= ch <= '9'
  }

  predicate AllDigits(s: string)
  {
    forall i :: 0 <= i < |s| ==> IsDigit(s[i])
  }

  function DigitChar(d: nat): char
    requires d < 10
  {
    ('0' as int + d) as char
  }

  /** sprintf('%d', n) for a natural number: its decimal numeral. */
  function NatToString(n: nat): (r: string)
    ensures r != "" && AllDigits(r)
  {
    if n < 10 then [DigitChar(n)] else NatToString(n / 10) + [DigitChar(n % 10)]
  }

  /** The value of a numeral, most significant digit first. */
  function DigitsValue(s: string): nat
    requires AllDigits(s)
  {
    if s == [] then 0
    else DigitsValue(s[..|s| - 1]) * 10 + (s[|s| - 1] as int - '0' as int)
  }

  /** Reading back a printed number gives the number. */
  lemma {:induction false} NatToStringRoundTrip(n: nat)
    ensures DigitsValue(NatToString(n)) == n
  {
    if n >= 10 {
      var s := NatToString(n);
      assert s[..|s| - 1] == NatToString(n / 10);
      NatToStringRoundTrip(n / 10);
    }
  }

  /** Different numbers print differently. */
  lemma NatToStringInjective(a: nat, b: nat)
    requires NatToString(a) == NatToString(b)
    ensures a == b
  {
    NatToStringRoundTrip(a);
    NatToStringRoundTrip(b);
  }

  /** The longest prefix of `s` made of decimal digits. */
  function LeadingDigits(s: string): (r: string)
    ensures AllDigits(r) && r <= s
    ensures AllDigits(s) ==> r == s
    ensures |r| < |s| ==> !IsDigit(s[|r|])
  {
    if s != [] && IsDigit(s[0]) then [s[0]] + LeadingDigits(s[1..]) else []
  }

  /** The whitespace PHP skips in front of a numeric string: " \t\n\r\v\f". */
  predicate IsNumericSpace(ch: char)
  {
    ch == ' ' || ch == '\t' || ch == '\n' || ch == '\r' || ch == '\U{B}' || ch == '\U{C}'
  }

  function SkipNumericSpace(s: string): (r: string)
    ensures |r| <= |s| && r == s[|s| - |r|..]
    ensures r == "" || !IsNumericSpace(r[0])
  {
    if s != [] && IsNumericSpace(s[0]) then SkipNumericSpace(s[1..]) else s
  }

  /**
   * The (int) cast of a string: leading whitespace, an optional sign, then
   * the leading run of digits; a string with no digits there is 0.
   */
  function IntOfString(s: string): int
  {
    var t := SkipNumericSpace(s);
    if t != [] && t[0] == '-' then -(DigitsValue(LeadingDigits(t[1..])) as int)
    else if t != [] && t[0] == '+' then DigitsValue(LeadingDigits(t[1..]))
    else DigitsValue(LeadingDigits(t))
  }

  /** The (int) cast reads back what sprintf('%d') printed. */
  lemma IntOfNumeral(n: nat)
    ensures IntOfString(NatToString(n)) == n
  {
    var s := NatToString(n);
    assert IsDigit(s[0]);
    assert !IsNumericSpace(s[0]) && s[0] != '-' && s[0] != '+';
    assert SkipNumericSpace(s) == s;
    assert LeadingDigits(s) == s;
    NatToStringRoundTrip(n);
  }

  // ---------------------------------------------------------------------
  // str_replace
  // ---------------------------------------------------------------------

  /** True when `pat` occurs in `s`. */
  predicate Contains(s: string, pat: string)
    decreases |s|
  {
    |pat| <= |s| && (s[..|pat|] == pat || (s != [] && Contains(s[1..], pat)))
  }

  /**
   * str_replace(pat, rep, s): one left-to-right pass that replaces every
   * non-overlapping occurrence of `pat`; an empty `pat` changes nothing.
   */
  function ReplaceAll(s: string, pat: string, rep: string): string
    decreases |s|
  {
    if pat == [] || |s| < |pat| then s
    else if s[..|pat|] == pat then rep + ReplaceAll(s[|pat|..], pat, rep)
    else [s[0]] + ReplaceAll(s[1..], pat, rep)
  }

  /** Replacing a string by itself changes nothing. */
  lemma {:induction false} ReplaceBySelf(s: string, pat: string)
    ensures ReplaceAll(s, pat, pat) == s
    decreases |s|
  {
    if pat == [] || |s| < |pat| {
    } else if s[..|pat|] == pat {
      ReplaceBySelf(s[|pat|..], pat);
      assert s == s[..|pat|] + s[|pat|..];
    } else {
      ReplaceBySelf(s[1..], pat);
      assert s == [s[0]] + s[1..];
    }
  }

  /** No occurrence starts inside a prefix that shares no character with the pattern. */
  lemma {:induction false} ContainsSkipsForeign(a: string, b: string, pat: string)
    requires pat != []
    requires forall i :: 0 <= i < |a| ==> a[i] !in pat
    requires Contains(a + b, pat)
    ensures Contains(b, pat)
    decreases |a|
  {
    if a != [] {
      assert (a + b)[0] == a[0];
      assert a[0] !in pat;
      assert (a + b)[..|pat|][0] == a[0];
      assert (a + b)[1..] == a[1..] + b;
      ContainsSkipsForeign(a[1..], b, pat);
    } else {
      assert a + b == b;
    }
  }

  /**
   * If the first `m` characters of the output are all pattern characters, no
   * replacement text was emitted there, so they are the input's first `m`.
   */
  lemma {:induction false} ReplacePrefixUntouched(s: string, pat: string, rep: string, m: nat)
    requires pat != [] && rep != []
    requires forall i :: 0 <= i < |rep| ==> rep[i] !in pat
    requires m <= |ReplaceAll(s, pat, rep)|
    requires forall i :: 0 <= i < m ==> ReplaceAll(s, pat, rep)[i] in pat
    ensures m <= |s| && s[..m] == ReplaceAll(s, pat, rep)[..m]
    decreases |s|
  {
    var r := ReplaceAll(s, pat, rep);
    if |s| < |pat| {
    } else if s[..|pat|] == pat {
      assert r[0] == rep[0];
    } else if m > 0 {
      var r' := ReplaceAll(s[1..], pat, rep);
      assert r == [s[0]] + r';
      forall i | 0 <= i < m - 1 ensures r'[i] in pat {
        assert r'[i] == r[i + 1];
      }
      ReplacePrefixUntouched(s[1..], pat, rep, m - 1);
      assert s[..m] == [s[0]] + s[1..][..m - 1];
      assert r[..m] == [s[0]] + r'[..m - 1];
    }
  }

  /**
   * After the replacement no occurrence of `pat` is left, provided the
   * replacement is non-empty and shares no character with the pattern.
   */
  lemma {:induction false} ReplaceAllClears(s: string, pat: string, rep: string)
    requires pat != [] && rep != []
    requires forall i :: 0 <= i < |rep| ==> rep[i] !in pat
    ensures !Contains(ReplaceAll(s, pat, rep), pat)
    decreases |s|
  {
    var r := ReplaceAll(s, pat, rep);
    if |s| < |pat| {
    } else if s[..|pat|] == pat {
      ReplaceAllClears(s[|pat|..], pat, rep);
      if Contains(r, pat) {
        ContainsSkipsForeign(rep, ReplaceAll(s[|pat|..], pat, rep), pat);
      }
    } else {
      var r' := ReplaceAll(s[1..], pat, rep);
      ReplaceAllClears(s[1..], pat, rep);
      assert r == [s[0]] + r';
      if |pat| <= |r| && r[..|pat|] == pat {
        forall i | 0 <= i < |pat| - 1 ensures r'[i] in pat {
          assert r'[i] == pat[i + 1];
        }
        ReplacePrefixUntouched(s[1..], pat, rep, |pat| - 1);
        assert false;
      }
      assert r[1..] == r';
    }
  }

  // ---------------------------------------------------------------------
  // pathinfo($p, PATHINFO_EXTENSION)
  // ---------------------------------------------------------------------

  /** The part of `s` after its last `c`, or all of `s` when it has no `c`. */
  function AfterLast(s: string, c: char): (r: string)
    ensures c !in r && |r| <= |s| && r == s[|s| - |r|..]
  {
    if s == [] then []
    else if s[|s| - 1] == c then []
    else AfterLast(s[..|s| - 1], c) + [s[|s| - 1]]
  }

  /** `s` without its trailing slashes. */
  function StripTrailingSlashes(s: string): string
  {
    if s != [] && s[|s| - 1] == '/' then StripTrailingSlashes(s[..|s| - 1]) else s
  }

  /** basename(p): the last path component, ignoring trailing slashes. */
  function Basename(p: string): string
  {
    AfterLast(StripTrailingSlashes(p), '/')
  }

  /** pathinfo(p, PATHINFO_EXTENSION): what follows the last dot of the basename, or "". */
  function Extension(p: string): string
  {
    var b := Basename(p);
    if '.' in b then AfterLast(b, '.') else ""
  }

  /** Text without `c` that is appended passes straight through AfterLast. */
  lemma {:induction false} AfterLastAppend(s: string, e: string, c: char)
    requires c !in e
    ensures AfterLast(s + e, c) == AfterLast(s, c) + e
    decreases |e|
  {
    if e == [] {
      assert s + e == s;
    } else {
      var init, last := e[..|e| - 1], e[|e| - 1];
      assert last != c;
      assert (s + e)[..|s + e| - 1] == s + init;
      assert (s + e)[|s + e| - 1] == last;
      assert AfterLast(s + e, c) == AfterLast(s + init, c) + [last];
      AfterLastAppend(s, init, c);
      assert init + [last] == e;
      AppendAssoc(AfterLast(s, c), init, [last]);
    }
  }

  /** A path ending in "." + e, where e holds no dot and no slash, has extension e. */
  lemma ExtensionOf(p: string, e: string)
    requires '.' !in e && '/' !in e
    ensures Extension(p + "." + e) == e
  {
    var q := p + "." + e;
    assert q[|q| - 1] != '/';
    assert StripTrailingSlashes(q) == q;
    AfterLastAppend(p + ".", e, '/');
    assert AfterLast(p + ".", '/') == AfterLast(p, '/') + ".";
    var b := AfterLast(p, '/') + "." + e;
    assert Basename(q) == b;
    assert b[|AfterLast(p, '/')|] == '.';
    AfterLastAppend(AfterLast(p, '/') + ".", e, '.');
    assert AfterLast(AfterLast(p, '/') + ".", '.') == [];
  }
}
