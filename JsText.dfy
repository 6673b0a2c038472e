/**
 * The JavaScript string operations the two scripts rely on: what `\s`, `\d`
 * and `\w` match, `String.prototype.trim`, `replace(/\s+/g, " ")`,
 * `includes`, `split(/\s+/)` and `Number` on a run of decimal digits.
 * Strings are sequences of code points; the scripts only ever compare them.
 */
module JsText {
  import opened Selection

  /** ECMAScript WhiteSpace and LineTerminator code points: what `\s` matches and `trim` removes. */
  predicate IsSpace(c: char)
  {
    c == '\t' || c == '\n' || c == '\U{B}' || c == '\U{C}' || c == '\r' || c == ' '
    || c == '\U{A0}' || c == '\U{1680}' || ('\U{2000}' <= c <= '\U{200A}')
    || c == '\U{2028}' || c == '\U{2029}' || c == '\U{202F}' || c == '\U{205F}'
    || c == '\U{3000}' || c == '\U{FEFF}'
  }

  /** `\d` without the `u` flag: an ASCII decimal digit. */
  predicate IsDigit(c: char)
  {
    '0' <= c <= '9'
  }

  predicate IsAsciiLetter(c: char)
  {
    'A' <= c <= 'Z' || 'a' <= c <= 'z'
  }

  /** `\w` without the `u` flag; `\b` sits between a word character and a non-word character. */
  predicate IsWordChar(c: char)
  {
    IsAsciiLetter(c) || IsDigit(c) || c == '_'
  }

  predicate AllDigits(s: string)
  {
    forall i :: 0 <= i < |s| ==> IsDigit(s[i])
  }

  predicate AllLetters(s: string)
  {
    forall i :: 0 <= i < |s| ==> IsAsciiLetter(s[i])
  }

  /** The canonicalisation a case-insensitive, non-Unicode JS regex applies to ASCII letters. */
  function LowerAscii(c: char): (r: char)
    ensures IsAsciiLetter(c) <==> IsAsciiLetter(r)
    ensures 'a' <= c <= 'z' ==> r == c
  {
    if 'A' <= c <= 'Z' then (c as int + 32) as char else c
  }

  /** Length of the longest suffix of `s` whose characters all satisfy `p`. */
  function SuffixLength(s: string, p: char -> bool): (n: nat)
    ensures n <= |s|
    ensures forall i :: |s| - n <= i < |s| ==> p(s[i])
    ensures n < |s| ==> !p(s[|s| - n - 1])
  {
    if s != [] && p(s[|s| - 1]) then 1 + SuffixLength(s[..|s| - 1], p) else 0
  }

  /**
   * Drops the leading and then the trailing characters of class `p`: what
   * is left is the slice of `s` that starts after the leading ones, and it
   * is empty exactly when every character of `s` is in the class.
   */
  function Strip(s: string, p: char -> bool): (r: string)
    ensures |r| <= |s|
    ensures r != [] ==> !p(r[0]) && !p(r[|r| - 1])
    ensures r == [] <==> forall i :: 0 <= i < |s| ==> p(s[i])
    ensures PrefixLength(s, p) + |r| <= |s| && r == s[PrefixLength(s, p)..PrefixLength(s, p) + |r|]
    ensures forall i :: PrefixLength(s, p) + |r| <= i < |s| ==> p(s[i])
  {
    var a := PrefixLength(s, p);
    var t := s[a..];
    var b := SuffixLength(t, p);
    assert t != [] ==> t[0] == s[a];
    t[..|t| - b]
  }

  /** A string that neither starts nor ends with a character of class `p` is its own strip. */
  lemma {:induction false} StripOfStripped(s: string, p: char -> bool)
    requires s != [] ==> !p(s[0]) && !p(s[|s| - 1])
    ensures Strip(s, p) == s
  {
    if s != [] {
      assert PrefixLength(s, p) == 0;
      assert SuffixLength(s, p) == 0;
      assert s[0..] == s;
    }
  }

  /** Neither the first nor the last character is white space. */
  predicate Trimmed(s: string)
  {
    s != [] ==> !IsSpace(s[0]) && !IsSpace(s[|s| - 1])
  }

  /** `String.prototype.trim`. */
  function Trim(s: string): (r: string)
    ensures |r| <= |s|
    ensures Trimmed(r)
    ensures r == [] <==> forall i :: 0 <= i < |s| ==> IsSpace(s[i])
    ensures TrimsTo(s, r)
  {
    Strip(s, IsSpace)
  }

  /**
   * `r` is what is left of `s` once its leading white-space run (of length
   * `PrefixLength(s, IsSpace)`) and the white space after it are dropped.
   */
  predicate TrimsTo(s: string, r: string)
  {
    var a := PrefixLength(s, IsSpace);
    a + |r| <= |s| && r == s[a..a + |r|] && forall i :: a + |r| <= i < |s| ==> IsSpace(s[i])
  }

  /** White space around a trimmed string is exactly what `trim` removes. */
  lemma TrimOfPadded(lead: string, m: string, trail: string)
    requires forall i :: 0 <= i < |lead| ==> IsSpace(lead[i])
    requires forall i :: 0 <= i < |trail| ==> IsSpace(trail[i])
    requires Trimmed(m)
    ensures Trim(lead + m + trail) == m
  {
    var s := lead + m + trail;
    if m == [] {
      assert s == lead + trail;
      assert forall i :: 0 <= i < |s| ==> IsSpace(s[i]);
    } else {
      assert s == lead + (m + trail);
      PrefixAll(lead, m + trail, IsSpace);
      assert s[|lead|] == m[0];
      PaddedSliceIsMiddle(s, |lead|, m, |s| - |lead| - |m|, Trim(s));
    }
  }

  /**
   * In `s`, a non-empty `m` at `a` that starts and ends with a non-space and is
   * followed only by white space is the only trimmed slice at `a` with white
   * space alone after it.
   */
  lemma PaddedSliceIsMiddle(s: string, a: nat, m: string, t: nat, r: string)
    requires a + |m| + t == |s| && m != [] && s[a..a + |m|] == m && Trimmed(m)
    requires forall i :: a + |m| <= i < |s| ==> IsSpace(s[i])
    requires r != [] && a + |r| <= |s| && r == s[a..a + |r|] && Trimmed(r)
    requires forall i :: a + |r| <= i < |s| ==> IsSpace(s[i])
    ensures r == m
  {
    assert s[a + |m| - 1] == m[|m| - 1];
    assert s[a + |r| - 1] == r[|r| - 1];
    assert |r| == |m|;
  }

  /** A string that neither starts nor ends with white space is its own trim. */
  lemma TrimOfTrimmed(s: string)
    requires Trimmed(s)
    ensures Trim(s) == s
  {
    StripOfStripped(s, IsSpace);
  }

  /** Length of the longest prefix of `s` whose characters all satisfy `p`. */
  function PrefixLength(s: string, p: char -> bool): (n: nat)
    ensures n <= |s|
    ensures forall i :: 0 <= i < n ==> p(s[i])
    ensures n < |s| ==> !p(s[n])
  {
    if s != [] && p(s[0]) then 1 + PrefixLength(s[1..], p) else 0
  }

  /**
   * The maximal runs of consecutive characters that satisfy `p`, left to
   * right: what a global regex `c+` for a character class `c` matches.
   */
  function Runs(s: string, p: char -> bool): (r: seq<string>)
    ensures forall k :: 0 <= k < |r| ==> r[k] != [] && forall i :: 0 <= i < |r[k]| ==> p(r[k][i])
    decreases |s|
  {
    if s == [] then []
    else if !p(s[0]) then Runs(s[1..], p)
    else
      var n := PrefixLength(s, p);
      [s[..n]] + Runs(s[n..], p)
  }

  /** There are no runs exactly when no character satisfies `p`. */
  lemma {:induction false} RunsEmpty(s: string, p: char -> bool)
    ensures Runs(s, p) == [] <==> forall i :: 0 <= i < |s| ==> !p(s[i])
    decreases |s|
  {
    if s != [] {
      RunsEmpty(s[1..], p);
      if !p(s[0]) {
        assert forall i :: 1 <= i < |s| ==> s[i] == s[1..][i - 1];
      }
    }
  }

  /** A prefix of characters outside the class contributes no run. */
  lemma {:induction false} RunsSkip(x: string, rest: string, p: char -> bool)
    requires forall i :: 0 <= i < |x| ==> !p(x[i])
    ensures Runs(x + rest, p) == Runs(rest, p)
    decreases |x|
  {
    if x != [] {
      assert (x + rest)[1..] == x[1..] + rest;
      RunsSkip(x[1..], rest, p);
    } else {
      assert x + rest == rest;
    }
  }

  /** A maximal run at the front is the first run. */
  lemma {:induction false} RunsRun(x: string, rest: string, p: char -> bool)
    requires x != [] && forall i :: 0 <= i < |x| ==> p(x[i])
    requires rest != [] ==> !p(rest[0])
    ensures Runs(x + rest, p) == [x] + Runs(rest, p)
  {
    var s := x + rest;
    PrefixAll(x, rest, p);
    assert s[..|x|] == x && s[|x|..] == rest;
  }

  lemma {:induction false} PrefixAll(x: string, rest: string, p: char -> bool)
    requires forall i :: 0 <= i < |x| ==> p(x[i])
    requires rest != [] ==> !p(rest[0])
    ensures PrefixLength(x + rest, p) == |x|
    decreases |x|
  {
    if x != [] {
      assert (x + rest)[1..] == x[1..] + rest;
      PrefixAll(x[1..], rest, p);
    }
  }

  /** A run of `p`-characters, then a non-empty gap without any, then the rest: the run comes first. */
  lemma RunsAfter(x: string, sep: string, rest: string, p: char -> bool)
    requires x != [] && forall i :: 0 <= i < |x| ==> p(x[i])
    requires sep != [] && forall i :: 0 <= i < |sep| ==> !p(sep[i])
    ensures Runs(x + sep + rest, p) == [x] + Runs(rest, p)
  {
    assert x + sep + rest == x + (sep + rest);
    RunsRun(x, sep + rest, p);
    RunsSkip(sep, rest, p);
  }

  /** A `p`-character in front starts a run of its own, or joins the first run when one follows at once. */
  lemma RunsCons(c: char, x: string, p: char -> bool)
    requires p(c)
    ensures x == [] || !p(x[0]) ==> Runs([c] + x, p) == [[c]] + Runs(x, p)
    ensures x != [] && p(x[0]) ==> Runs(x, p) != [] && Runs([c] + x, p) == [[c] + Runs(x, p)[0]] + Runs(x, p)[1..]
  {
    if x == [] || !p(x[0]) {
      RunsRun([c], x, p);
    } else {
      var n := PrefixLength(x, p);
      assert x == x[..n] + x[n..];
      assert [c] + x == ([c] + x[..n]) + x[n..];
      RunsRun(x[..n], x[n..], p);
      RunsRun([c] + x[..n], x[n..], p);
    }
  }

  /** Characters outside the class at the end contribute no run. */
  lemma {:induction false} RunsDropTail(r: string, t: string, p: char -> bool)
    requires forall i :: 0 <= i < |t| ==> !p(t[i])
    ensures Runs(r + t, p) == Runs(r, p)
    decreases |r|
  {
    if r == [] {
      assert r + t == t;
      RunsEmpty(t, p);
    } else if !p(r[0]) {
      assert (r + t)[1..] == r[1..] + t;
      RunsDropTail(r[1..], t, p);
    } else {
      var n := PrefixLength(r, p);
      assert r == r[..n] + r[n..];
      assert r + t == r[..n] + (r[n..] + t);
      RunsRun(r[..n], r[n..] + t, p);
      RunsRun(r[..n], r[n..], p);
      RunsDropTail(r[n..], t, p);
    }
  }

  predicate IsNonSpace(c: char)
  {
    !IsSpace(c)
  }

  /** The runs of non-white-space characters. */
  function Fields(s: string): (r: seq<string>)
    ensures forall k :: 0 <= k < |r| ==> r[k] != [] && forall i :: 0 <= i < |r[k]| ==> !IsSpace(r[k][i])
  {
    Runs(s, IsNonSpace)
  }

  /**
   * `text.trim().split(/\s+/)`: splitting a trimmed non-empty string at its
   * white-space runs gives its maximal runs of other characters; splitting the
   * empty string gives one empty piece.
   */
  function Tokens(text: string): (r: seq<string>)
    ensures r != []
    ensures forall k :: 0 <= k < |r| ==> forall i :: 0 <= i < |r[k]| ==> !IsSpace(r[k][i])
  {
    var t := Trim(text);
    if t == [] then [[]]
    else
      RunsEmpty(t, IsNonSpace);
      Fields(t)
  }

  /** A string that neither starts nor ends with white space splits into its fields. */
  lemma TokensOfTrimmed(text: string)
    requires text != [] && Trimmed(text)
    ensures Tokens(text) == Fields(text)
  {
    TrimOfTrimmed(text);
  }

  /** A field followed by one space is the first field. */
  lemma FieldsCons(a: string, rest: string)
    requires a != [] && forall i :: 0 <= i < |a| ==> !IsSpace(a[i])
    ensures Fields(a + " " + rest) == [a] + Fields(rest)
  {
    RunsAfter(a, " ", rest, IsNonSpace);
  }

  /** The tokens of a field, one space and a rest that ends in a non-space. */
  lemma TokensOfJoin(a: string, rest: string)
    requires a != [] && forall i :: 0 <= i < |a| ==> !IsSpace(a[i])
    requires rest != [] && !IsSpace(rest[|rest| - 1])
    ensures Tokens(a + " " + rest) == [a] + Fields(rest)
  {
    var text := a + " " + rest;
    assert text[0] == a[0] && text[|text| - 1] == rest[|rest| - 1];
    TokensOfTrimmed(text);
    FieldsCons(a, rest);
  }

  /** A string without white space is a single field. */
  lemma FieldsSingle(a: string)
    requires a != [] && forall i :: 0 <= i < |a| ==> !IsSpace(a[i])
    ensures Fields(a) == [a]
  {
    RunsRun(a, [], IsNonSpace);
    assert a + [] == a;
  }

  /** The only white space in `r` is plain spaces, never two in a row. */
  predicate SingleSpaced(r: string)
  {
    && (forall i :: 0 <= i < |r| && IsSpace(r[i]) ==> r[i] == ' ')
    && (forall i :: 0 <= i < |r| - 1 ==> !(IsSpace(r[i]) && IsSpace(r[i + 1])))
  }

  /** `replace(/\s+/g, " ")`: every white-space run becomes one space. */
  function CollapseSpaces(s: string): (r: string)
    ensures SingleSpaced(r)
    ensures r == [] <==> s == []
    ensures r != [] ==> (IsSpace(r[0]) <==> IsSpace(s[0])) && (IsSpace(r[|r| - 1]) <==> IsSpace(s[|s| - 1]))
    decreases |s|
  {
    if s == [] then []
    else if IsSpace(s[0]) then
      var n := PrefixLength(s, IsSpace);
      [' '] + CollapseSpaces(s[n..])
    else [s[0]] + CollapseSpaces(s[1..])
  }

  /** The normalisation both match callbacks apply to `innerText` before comparing. */
  function NormalizeSpaces(s: string): (r: string)
    ensures Trimmed(r) && SingleSpaced(r)
  {
    var c := CollapseSpaces(s);
    var t := Trim(c);
    SliceKeepsCollapsed(c, t);
    t
  }

  /** A slice of a collapsed string is collapsed. */
  lemma SliceKeepsCollapsed(c: string, r: string)
    requires SingleSpaced(c) && TrimsTo(c, r)
    ensures SingleSpaced(r)
  {
    var d := PrefixLength(c, IsSpace);
    forall i | 0 <= i < |r| - 1 ensures !(IsSpace(r[i]) && IsSpace(r[i + 1])) {
      assert r[i] == c[d + i] && r[i + 1] == c[d + i + 1];
    }
  }

  /** Collapsing white space changes no field: only the spacing between them. */
  lemma {:induction false} CollapseKeepsFields(s: string)
    ensures Fields(CollapseSpaces(s)) == Fields(s)
    decreases |s|
  {
    if s != [] {
      if IsSpace(s[0]) {
        var n := PrefixLength(s, IsSpace);
        CollapseKeepsFields(s[n..]);
        CollapseOfSpace(s);
        FieldsAfterSpace(CollapseSpaces(s[n..]));
        FieldsAfterSpaces(s, n);
      } else {
        CollapseKeepsFields(s[1..]);
        CollapseOfChar(s);
        FieldsConsAlike(s[0], s[1..], CollapseSpaces(s[1..]));
      }
    }
  }

  lemma CollapseOfSpace(s: string)
    requires s != [] && IsSpace(s[0])
    ensures CollapseSpaces(s) == [' '] + CollapseSpaces(s[PrefixLength(s, IsSpace)..])
  {
  }

  lemma CollapseOfChar(s: string)
    requires s != [] && !IsSpace(s[0])
    ensures [s[0]] + s[1..] == s
    ensures CollapseSpaces(s) == [s[0]] + CollapseSpaces(s[1..])
  {
  }

  /** A leading white-space run adds no field. */
  lemma FieldsAfterSpaces(s: string, n: nat)
    requires n == PrefixLength(s, IsSpace)
    ensures Fields(s) == Fields(s[n..])
  {
    assert s == s[..n] + (s[n..] + []);
    FieldsOfPadded(s[..n], s[n..], []);
    assert s[n..] + [] == s[n..];
  }

  /** A leading space adds no field. */
  lemma FieldsAfterSpace(c: string)
    ensures Fields([' '] + c) == Fields(c)
  {
    FieldsOfPadded([' '], c, []);
    assert [' '] + (c + []) == [' '] + c;
    assert c + [] == c;
  }

  /** Two strings with the same fields that both start with a field, or both not, keep equal fields after a non-space. */
  lemma FieldsConsAlike(c: char, x: string, y: string)
    requires !IsSpace(c) && Fields(x) == Fields(y)
    requires x == [] <==> y == []
    requires x != [] ==> (IsSpace(x[0]) <==> IsSpace(y[0]))
    ensures Fields([c] + x) == Fields([c] + y)
  {
    RunsCons(c, x, IsNonSpace);
    RunsCons(c, y, IsNonSpace);
  }

  /** Trimming changes no field. */
  lemma TrimKeepsFields(s: string)
    ensures Fields(Trim(s)) == Fields(s)
  {
    FieldsOfTrimsTo(s, Trim(s));
  }

  /** A piece of `s` that only white space precedes and follows has the fields of `s`. */
  lemma FieldsOfTrimsTo(s: string, r: string)
    requires TrimsTo(s, r)
    ensures Fields(r) == Fields(s)
  {
    var a := PrefixLength(s, IsSpace);
    var lead, tail := s[..a], s[a + |r|..];
    SliceAround(s, a, r);
    assert forall i :: 0 <= i < |tail| ==> tail[i] == s[a + |r| + i];
    FieldsOfPadded(lead, r, tail);
  }

  lemma SliceAround(s: string, a: nat, r: string)
    requires a + |r| <= |s| && r == s[a..a + |r|]
    ensures s == s[..a] + (r + s[a + |r|..])
  {
  }

  /** White space on either side adds no field. */
  lemma FieldsOfPadded(lead: string, r: string, tail: string)
    requires forall i :: 0 <= i < |lead| ==> IsSpace(lead[i])
    requires forall i :: 0 <= i < |tail| ==> IsSpace(tail[i])
    ensures Fields(lead + (r + tail)) == Fields(r)
  {
    RunsSkip(lead, r + tail, IsNonSpace);
    RunsDropTail(r, tail, IsNonSpace);
  }

  /** `words.join(" ")`. */
  function JoinWords(ws: seq<string>): string
  {
    if ws == [] then [] else if |ws| == 1 then ws[0] else ws[0] + " " + JoinWords(ws[1..])
  }

  /** Trimmed text whose white space is single plain spaces is its fields joined by spaces. */
  lemma {:induction false} SingleSpacedIsJoin(r: string)
    requires Trimmed(r) && SingleSpaced(r)
    ensures r == JoinWords(Fields(r))
    decreases |r|
  {
    if r != [] {
      var n := PrefixLength(r, IsNonSpace);
      if n == |r| {
        assert r[..n] == r;
        FieldsSingle(r);
      } else {
        var w, rest := r[..n], r[n + 1..];
        SplitAtSpace(r, n);
        FieldsCons(w, rest);
        SingleSpacedIsJoin(rest);
        RunsEmpty(rest, IsNonSpace);
      }
    }
  }

  /** Trimmed single-spaced text splits at its first space into a word and trimmed single-spaced text. */
  lemma SplitAtSpace(r: string, n: nat)
    requires Trimmed(r) && SingleSpaced(r)
    requires n == PrefixLength(r, IsNonSpace) && n < |r|
    ensures 0 < n && r == r[..n] + " " + r[n + 1..]
    ensures r[n + 1..] != [] && Trimmed(r[n + 1..]) && SingleSpaced(r[n + 1..])
  {
    assert !IsNonSpace(r[n]) && r[n] == ' ';
    assert n + 1 < |r| && !IsSpace(r[n + 1]);
    SplitAround(r, n);
    SingleSpacedSuffix(r, n + 1);
  }

  /** A string is its part before `n`, its `n`th character and its part after. */
  lemma SplitAround(r: string, n: nat)
    requires n < |r|
    ensures r == r[..n] + [r[n]] + r[n + 1..]
  {
  }

  /** A suffix of single-spaced text is single-spaced. */
  lemma SingleSpacedSuffix(r: string, k: nat)
    requires SingleSpaced(r) && k <= |r|
    ensures SingleSpaced(r[k..])
  {
    var t := r[k..];
    assert forall i :: 0 <= i < |t| ==> t[i] == r[k + i];
  }

  /** The normalised text is the fields of the input joined by single spaces. */
  lemma NormalizeIsJoin(s: string)
    ensures NormalizeSpaces(s) == JoinWords(Fields(s))
  {
    CollapseKeepsFields(s);
    TrimKeepsFields(CollapseSpaces(s));
    SingleSpacedIsJoin(NormalizeSpaces(s));
  }

  predicate OccursAt(hay: string, needle: string, i: int)
  {
    0 <= i && i + |needle| <= |hay| && hay[i..i + |needle|] == needle
  }

  /** `hay.includes(needle)`, and XPath `contains(hay, needle)`: true for the empty needle. */
  predicate Contains(hay: string, needle: string)
  {
    exists i :: 0 <= i <= |hay| && OccursAt(hay, needle, i)
  }

  lemma EmptyIsContained(hay: string)
    ensures Contains(hay, [])
  {
    assert OccursAt(hay, [], 0);
  }

  predicate IsNotQuote(c: char)
  {
    c != '"'
  }

  /** `s.replace(/"/g, "")`: the characters of `s` other than `"`, in order. */
  function StripQuotes(s: string): (r: string)
    ensures r == Filter(s, IsNotQuote)
    ensures |r| <= |s|
    ensures forall i :: 0 <= i < |r| ==> r[i] != '"'
    ensures (forall i :: 0 <= i < |s| ==> s[i] != '"') ==> r == s
  {
    if s == [] then []
    else (if s[0] == '"' then [] else [s[0]]) + StripQuotes(s[1..])
  }

  function DigitValue(c: char): (d: nat)
    ensures d < 10
  {
    if IsDigit(c) then c as int - '0' as int else 0
  }

  /** `Number(d)` for a string of decimal digits, read left to right. */
  function DecimalValue(d: string): nat
  {
    if d == [] then 0 else 10 * DecimalValue(d[..|d| - 1]) + DigitValue(d[|d| - 1])
  }

  /** `String(n)`: the decimal numeral of `n`, with no leading zero. */
  function DecimalString(n: nat): (d: string)
    ensures d != [] && AllDigits(d)
    ensures d[0] == '0' ==> n == 0
    decreases n
  {
    var last := (('0' as int) + n % 10) as char;
    if n < 10 then [last] else DecimalString(n / 10) + [last]
  }

  /** `Number` reads back every numeral `String` writes. */
  lemma {:induction false} DecimalRoundTrip(n: nat)
    ensures DecimalValue(DecimalString(n)) == n
    decreases n
  {
    var d := DecimalString(n);
    assert DigitValue(d[|d| - 1]) == n % 10;
    if n >= 10 {
      DecimalRoundTrip(n / 10);
      assert d[..|d| - 1] == DecimalString(n / 10);
    }
  }

  /** The numerals of the calendar's date examples. */
  lemma ExampleNumerals()
    ensures DecimalValue("2") == 2 && DecimalValue("28") == 28 && DecimalValue("30") == 30
  {
    assert "2"[..0] == [] && "28"[..1] == "2" && "30"[..1] == "3" && "3"[..0] == [];
    assert DecimalValue("3") == 3;
  }

  /** `Number("0" + d) == Number(d)`: leading zeros do not change the value. */
  lemma {:induction false} LeadingZeroIgnored(d: string)
    ensures DecimalValue("0" + d) == DecimalValue(d)
    decreases |d|
  {
    if d != [] {
      var z := "0" + d;
      assert z[..|z| - 1] == "0" + d[..|d| - 1];
      assert z[|z| - 1] == d[|d| - 1];
      LeadingZeroIgnored(d[..|d| - 1]);
    }
  }
}
