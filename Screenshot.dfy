/**
 * The decision core of `screenshot.js`: its date parser, the list of parsed
 * cards, the choice of the last and the next race, and the search for the
 * live element to capture.
 */
module Screenshot {
  import opened Wrappers
  import opened JsText
  import opened Calendar
  import opened Selection
  import opened Cards

  // ---------------------------------------------------------------- parseRaceDate

  /**
   * What `parseRaceDate` returns when it does not return null. The month
   * regex ignores case but the table lookup does not, so a month written
   * as, say, "NOV" yields `new Date(2025, undefined, d)`: two Invalid Dates.
   */
  datatype Parsed = Dates(range: Interval) | InvalidDates

  /**
   * The alternatives `Jan|Feb|…|Dec` of the month regex, spelled in lower
   * case, as triples of letters.
   */
  predicate IsMonthTriple(a: char, b: char, c: char)
  {
    || (a, b, c) == ('j', 'a', 'n') || (a, b, c) == ('f', 'e', 'b') || (a, b, c) == ('m', 'a', 'r')
    || (a, b, c) == ('a', 'p', 'r') || (a, b, c) == ('m', 'a', 'y') || (a, b, c) == ('j', 'u', 'n')
    || (a, b, c) == ('j', 'u', 'l') || (a, b, c) == ('a', 'u', 'g') || (a, b, c) == ('s', 'e', 'p')
    || (a, b, c) == ('o', 'c', 't') || (a, b, c) == ('n', 'o', 'v') || (a, b, c) == ('d', 'e', 'c')
  }

  /** One of the alternatives `Jan|Feb|…|Dec`, in any case (the regex's `i` flag). */
  predicate IsMonthWord(w: string)
  {
    |w| == 3 && IsMonthTriple(LowerAscii(w[0]), LowerAscii(w[1]), LowerAscii(w[2]))
  }

  /** A month word is three ASCII letters. */
  lemma MonthWordIsLetters(w: string)
    requires IsMonthWord(w)
    ensures |w| == 3 && AllLetters(w)
  {
    forall i | 0 <= i < 3 ensures IsAsciiLetter(w[i]) {
      assert IsAsciiLetter(LowerAscii(w[i]));
    }
  }

  /** `/\b(Jan|Feb|…|Dec)\b/i` matches at position `p` of `s`. */
  predicate MonthWordAt(s: string, p: int)
  {
    0 <= p && p + 3 <= |s|
    && IsMonthWord(s[p..p + 3])
    && (p == 0 || !IsWordChar(s[p - 1]))
    && (p + 3 == |s| || !IsWordChar(s[p + 3]))
  }

  /** The leftmost match of the month regex at or after `from`. */
  function FirstMonthWord(s: string, from: nat): (r: Option<nat>)
    ensures r.Some? ==> from <= r.value && MonthWordAt(s, r.value)
    ensures r.Some? ==> forall q :: from <= q < r.value ==> !MonthWordAt(s, q)
    ensures r.None? ==> forall q :: from <= q ==> !MonthWordAt(s, q)
    decreases |s| - from
  {
    if from + 3 > |s| then None
    else if MonthWordAt(s, from) then Some(from)
    else FirstMonthWord(s, from + 1)
  }

  /** `text.match(/\d+/g)?.map(Number) ?? []`. */
  function DigitRuns(text: string): (nums: seq<nat>)
    ensures |nums| == |Runs(text, IsDigit)|
    ensures forall k :: 0 <= k < |nums| ==> nums[k] == DecimalValue(Runs(text, IsDigit)[k])
  {
    var runs := Runs(text, IsDigit);
    seq(|runs|, i requires 0 <= i < |runs| => DecimalValue(runs[i]))
  }

  /** `parseRaceDate` of screenshot.js. */
  function ParseRaceDate(text: string): (r: Option<Parsed>)
    ensures r.Some? && r.value.Dates? ==>
              var iv := r.value.range;
              && iv.start.year == SeasonYear
              && iv.end.month == iv.start.month
              && LessEq(iv.start, iv.end)
              && (iv.end.year == SeasonYear + 1 <==> Less(iv.end.(year := SeasonYear), iv.start))
              && (iv.end.year == SeasonYear || iv.end.year == SeasonYear + 1)
  {
    if text == [] then None
    else
      var nums := DigitRuns(text);
      var at := FirstMonthWord(text, 0);
      if nums == [] || at.None? then None
      else
        match MonthIndex(text[at.value..at.value + 3])
        case None => Some(InvalidDates)
        case Some(month) =>
          var start := Date(SeasonYear, month, nums[0]);
          var end := Date(SeasonYear, month, if |nums| > 1 then nums[1] else nums[0]);
          Some(Dates(Interval(start, if Less(end, start) then end.(year := end.year + 1) else end)))
  }

  /** The parser gives null exactly for empty text, text without a digit, or text without a whole-word month. */
  lemma ParseRaceDateAbsent(text: string)
    ensures ParseRaceDate(text).None? <==>
              || text == []
              || (forall i :: 0 <= i < |text| ==> !IsDigit(text[i]))
              || (forall q :: 0 <= q ==> !MonthWordAt(text, q))
  {
    RunsEmpty(text, IsDigit);
  }

  /**
   * When the parser gives dates, the start day is the first digit run, the
   * end day the second (or the first again), and both months are that of the
   * first month word; that word spelled in another case gives Invalid Dates.
   */
  lemma ParseRaceDateFields(text: string)
    requires ParseRaceDate(text).Some?
    ensures exists p :: MonthWordAt(text, p) && (forall q :: 0 <= q < p ==> !MonthWordAt(text, q))
              && (ParseRaceDate(text) == Some(InvalidDates) <==> text[p..p + 3] !in MonthNumbers)
              && (ParseRaceDate(text).value.Dates? ==>
                    var iv := ParseRaceDate(text).value.range;
                    var runs := Runs(text, IsDigit);
                    && runs != []
                    && iv.start.month == MonthNumbers[text[p..p + 3]]
                    && iv.start.day == DecimalValue(runs[0])
                    && iv.end.day == DecimalValue(if |runs| > 1 then runs[1] else runs[0]))
  {
    var p := FirstMonthWord(text, 0).value;
    assert MonthWordAt(text, p);
  }

  /** Each key of the table is a month word. */
  lemma TableKeyIsMonthWord(w: string)
    requires w in MonthNumbers
    ensures IsMonthWord(w)
  {
  }

  /** No month word starts with a non-letter. */
  lemma NonLetterIsNoMonthWord(w: string)
    requires w != [] && !IsAsciiLetter(w[0])
    ensures !IsMonthWord(w)
  {
  }

  /** A month match starts with a letter. */
  lemma NoMonthWordAtNonLetter(s: string, q: int)
    requires 0 <= q < |s| && !IsAsciiLetter(s[q])
    ensures !MonthWordAt(s, q)
  {
    if q + 3 <= |s| {
      assert s[q..q + 3][0] == s[q];
      NonLetterIsNoMonthWord(s[q..q + 3]);
    }
  }

  /** No character of `s` is an ASCII letter. */
  predicate NoLetter(s: string)
  {
    forall i :: 0 <= i < |s| ==> !IsAsciiLetter(s[i])
  }

  /** The month word that closes `prefix + " " + w`, where no letter precedes it, is the first month match. */
  lemma TrailingMonthIsFirst(prefix: string, w: string, pos: nat)
    requires IsMonthWord(w) && pos == |prefix| + 1
    requires NoLetter(prefix)
    ensures FirstMonthWord(prefix + " " + w, 0) == Some(pos)
    ensures |prefix + " " + w| == pos + 3 && (prefix + " " + w)[pos..pos + 3] == w
  {
    var s := prefix + " " + w;
    MonthWordIsLetters(w);
    assert s[pos..pos + 3] == w;
    assert MonthWordAt(s, pos);
    forall q | 0 <= q < pos ensures !MonthWordAt(s, q) {
      if q < |prefix| {
        assert s[q] == prefix[q];
      }
      NoMonthWordAtNonLetter(s, q);
    }
    FirstMonthWordIs(s, 0, pos);
  }

  /** Whether the month regex matches at `q` does not change when text is appended past `q + 3`. */
  lemma MonthWordAtAppend(s: string, t: string, q: nat)
    requires q + 3 < |s|
    ensures MonthWordAt(s + t, q) == MonthWordAt(s, q)
  {
    var u := s + t;
    assert u[q..q + 3] == s[q..q + 3];
    if q > 0 { assert u[q - 1] == s[q - 1]; }
    assert u[q + 3] == s[q + 3];
  }

  /** A match that ends `s` still matches when a non-word character is appended. */
  lemma MonthWordAtEnd(s: string, t: string, q: nat)
    requires q + 3 == |s| && MonthWordAt(s, q)
    requires t != [] && !IsWordChar(t[0])
    ensures MonthWordAt(s + t, q)
  {
    var u := s + t;
    assert u[q..q + 3] == s[q..q + 3];
    if q > 0 { assert u[q - 1] == s[q - 1]; }
    assert u[q + 3] == t[0];
  }

  /** `FirstMonthWord` finds a match at `p` when no match lies between `from` and `p`. */
  lemma {:induction false} FirstMonthWordIs(s: string, from: nat, p: nat)
    requires from <= p && MonthWordAt(s, p)
    requires forall q :: from <= q < p ==> !MonthWordAt(s, q)
    ensures FirstMonthWord(s, from) == Some(p)
    decreases p - from
  {
    if from < p {
      assert !MonthWordAt(s, from);
      FirstMonthWordIs(s, from + 1, p);
    }
  }

  /** Appending text keeps the first month match, provided a non-word character still follows it. */
  lemma FirstMonthWordExtends(s: string, t: string, p: nat)
    requires FirstMonthWord(s, 0) == Some(p) && p + 3 <= |s|
    requires p + 3 < |s| || (t != [] && !IsWordChar(t[0]))
    ensures FirstMonthWord(s + t, 0) == Some(p)
  {
    if p + 3 < |s| {
      MonthWordAtAppend(s, t, p);
    } else {
      MonthWordAtEnd(s, t, p);
    }
    forall q | 0 <= q < p ensures !MonthWordAt(s + t, q) {
      MonthWordAtAppend(s, t, q);
    }
    FirstMonthWordIs(s + t, 0, p);
  }

  /** The parse, given two digit runs and a table month as the first month match. */
  lemma ParseOfParts(text: string, x: string, y: string, p: nat, m: nat)
    requires Runs(text, IsDigit) == [x, y]
    requires FirstMonthWord(text, 0) == Some(p) && MonthIndex(text[p..p + 3]) == Some(m)
    ensures var d1, d2 := DecimalValue(x), DecimalValue(y);
            ParseRaceDate(text)
              == Some(Dates(Interval(Date(SeasonYear, m, d1), Date(if d2 < d1 then SeasonYear + 1 else SeasonYear, m, d2))))
  {
    var nums := DigitRuns(text);
    assert |nums| == 2 && nums[0] == DecimalValue(x) && nums[1] == DecimalValue(y);
  }

  lemma DayRangeHasNoLetter(x: string, y: string)
    requires AllDigits(x) && AllDigits(y)
    ensures NoLetter(x + " - " + y)
  {
    var prefix := x + " - " + y;
    forall i | 0 <= i < |prefix| ensures !IsAsciiLetter(prefix[i]) {
      if i < |x| { assert prefix[i] == x[i]; }
      else if i >= |x| + 3 { assert prefix[i] == y[i - |x| - 3]; }
    }
  }

  /** In "D1 - D2 W" the month match is `W`, after the two digit runs. */
  lemma DayRangeShape(x: string, y: string, w: string, text: string)
    requires x != [] && AllDigits(x) && y != [] && AllDigits(y)
    requires IsMonthWord(w) && text == x + " - " + y + " " + w
    ensures |text| == |x| + |y| + 7 && FirstMonthWord(text, 0) == Some(|x| + |y| + 4)
    ensures text[|x| + |y| + 4..|x| + |y| + 7] == w
  {
    var prefix := x + " - " + y;
    assert text == prefix + " " + w && |prefix| == |x| + |y| + 3;
    DayRangeHasNoLetter(x, y);
    TrailingMonthIsFirst(prefix, w, |x| + |y| + 4);
  }

  /**
   * The common card form "D1 - D2 Mon": both days come from the text, the
   * month from the table, and a second day below the first moves the end
   * into the following year.
   */
  lemma ParseDayRange(x: string, y: string, w: string)
    requires x != [] && AllDigits(x) && y != [] && AllDigits(y)
    requires w in MonthNumbers
    ensures var m := MonthNumbers[w];
            var d1, d2 := DecimalValue(x), DecimalValue(y);
            ParseRaceDate(x + " - " + y + " " + w)
              == Some(Dates(Interval(Date(SeasonYear, m, d1), Date(if d2 < d1 then SeasonYear + 1 else SeasonYear, m, d2))))
  {
    var text := x + " - " + y + " " + w;
    TableKeyIsMonthWord(w);
    MonthWordIsLetters(w);
    DayRangeShape(x, y, w, text);
    DayRangeRuns(x, y, w);
    ParseOfParts(text, x, y, |x| + |y| + 4, MonthNumbers[w]);
  }

  /** A month spelled in a case the table lacks ("28 - 30 NOV") is found by the regex but gives Invalid Dates. */
  lemma ParseOtherCase(x: string, y: string, w: string)
    requires x != [] && AllDigits(x) && y != [] && AllDigits(y)
    requires IsMonthWord(w) && MonthIndex(w).None?
    ensures ParseRaceDate(x + " - " + y + " " + w) == Some(InvalidDates)
  {
    var text := x + " - " + y + " " + w;
    MonthWordIsLetters(w);
    DayRangeShape(x, y, w, text);
    DayRangeRuns(x, y, w);
    assert |DigitRuns(text)| == 2;
  }

  lemma DayRangeRuns(x: string, y: string, w: string)
    requires x != [] && AllDigits(x) && y != [] && AllDigits(y)
    requires AllLetters(w)
    ensures Runs(x + " - " + y + " " + w, IsDigit) == [x, y]
  {
    assert x + " - " + y + " " + w == x + " - " + (y + " " + w);
    RunsAfter(x, " - ", y + " " + w, IsDigit);
    RunsAfter(y, " ", w, IsDigit);
    RunsEmpty(w, IsDigit);
  }

  lemma CrossMonthRuns(x: string, w1: string, y: string, w2: string)
    requires x != [] && AllDigits(x) && y != [] && AllDigits(y)
    requires AllLetters(w1) && w1 != [] && AllLetters(w2)
    ensures Runs(x + " " + w1 + " - " + y + " " + w2, IsDigit) == [x, y]
  {
    assert x + " " + w1 + " - " + y + " " + w2 == x + (" " + w1 + " - ") + (y + " " + w2);
    RunsAfter(x, " " + w1 + " - ", y + " " + w2, IsDigit);
    RunsAfter(y, " ", w2, IsDigit);
    RunsEmpty(w2, IsDigit);
  }

  /** A cross-month range "D1 Mon1 - D2 Mon2" takes the first month for both days. */
  lemma ParseCrossMonth(x: string, w1: string, y: string, w2: string)
    requires x != [] && AllDigits(x) && y != [] && AllDigits(y)
    requires w1 in MonthNumbers && w2 in MonthNumbers
    ensures var m := MonthNumbers[w1];
            var d1, d2 := DecimalValue(x), DecimalValue(y);
            ParseRaceDate(x + " " + w1 + " - " + y + " " + w2)
              == Some(Dates(Interval(Date(SeasonYear, m, d1), Date(if d2 < d1 then SeasonYear + 1 else SeasonYear, m, d2))))
  {
    MonthNamesAreLetters(w1);
    MonthNamesAreLetters(w2);
    TableKeyIsMonthWord(w1);
    CrossMonthParts(x, w1, y, w2, MonthNumbers[w1]);
  }

  lemma CrossMonthParts(x: string, w1: string, y: string, w2: string, m: nat)
    requires x != [] && AllDigits(x) && y != [] && AllDigits(y)
    requires |w1| == 3 && AllLetters(w1) && IsMonthWord(w1) && MonthIndex(w1) == Some(m) && AllLetters(w2)
    ensures var d1, d2 := DecimalValue(x), DecimalValue(y);
            ParseRaceDate(x + " " + w1 + " - " + y + " " + w2)
              == Some(Dates(Interval(Date(SeasonYear, m, d1), Date(if d2 < d1 then SeasonYear + 1 else SeasonYear, m, d2))))
  {
    var head := x + " " + w1;
    var text := x + " " + w1 + " - " + y + " " + w2;
    assert NoLetter(x);
    TrailingMonthIsFirst(x, w1, |x| + 1);
    FirstMonthWordExtends(head, " - ", |x| + 1);
    FirstMonthWordExtends(head + " - ", y, |x| + 1);
    FirstMonthWordExtends(head + " - " + y, " ", |x| + 1);
    FirstMonthWordExtends(head + " - " + y + " ", w2, |x| + 1);
    assert text[|x| + 1..|x| + 4] == w1;
    CrossMonthRuns(x, w1, y, w2);
    ParseOfParts(text, x, y, |x| + 1, m);
  }

  /** "28 - 30 Nov": 28 to 30 November 2025. */
  lemma ExampleSameMonth(x: string, y: string, w: string)
    requires x == "28" && y == "30" && w == "Nov"
    ensures ParseRaceDate(x + " - " + y + " " + w) == Some(Dates(Interval(Date(2025, 10, 28), Date(2025, 10, 30))))
  {
    ExampleNumerals();
    assert MonthNumbers["Nov"] == 10;
    ParseDayRange(x, y, w);
  }

  /** "28 - 30 NOV": the upper-case month matches the regex but not the table. */
  lemma ExampleUpperCase(x: string, y: string, w: string)
    requires x == "28" && y == "30" && w == "NOV"
    ensures ParseRaceDate(x + " - " + y + " " + w) == Some(InvalidDates)
  {
    assert "Nov" in MonthNumbers;
    assert w !in MonthNumbers;
    ParseOtherCase(x, y, w);
  }

  /** "30 - 2 Dec": the end falls before the start and moves to 2 December 2026. */
  lemma ExampleRollover(x: string, y: string, w: string)
    requires x == "30" && y == "2" && w == "Dec"
    ensures ParseRaceDate(x + " - " + y + " " + w) == Some(Dates(Interval(Date(2025, 11, 30), Date(2026, 11, 2))))
  {
    ExampleNumerals();
    assert MonthNumbers["Dec"] == 11;
    ParseDayRange(x, y, w);
  }

  /** "30 Nov - 2 Dec": both days take November, so the range ends on 2 November 2026. */
  lemma ExampleCrossMonth(x: string, w1: string, y: string, w2: string)
    requires x == "30" && w1 == "Nov" && y == "2" && w2 == "Dec"
    ensures ParseRaceDate(x + " " + w1 + " - " + y + " " + w2) == Some(Dates(Interval(Date(2025, 10, 30), Date(2026, 10, 2))))
  {
    ExampleNumerals();
    assert MonthNumbers["Nov"] == 10;
    ParseCrossMonth(x, w1, y, w2);
  }

  // ---------------------------------------------------------------- cards

  /** A pushed card: its position among the `a.group` elements, its texts and its parse. */
  datatype Card = Card(index: nat, title: string, dateText: string, parsed: Parsed)

  /** The card the `.each` callback pushes for node `i`, if its date text parses. */
  function CardAt(i: nat, n: CardNode): (r: Option<Card>)
    ensures r.Some? <==> ParseRaceDate(DateTextOf(n)).Some?
    ensures r.Some? ==> r.value.index == i && r.value.title == TitleOf(n) && r.value.dateText == DateTextOf(n)
    ensures r.Some? ==> Some(r.value.parsed) == ParseRaceDate(DateTextOf(n))
  {
    var dateText := DateTextOf(n);
    match ParseRaceDate(dateText)
    case None => None
    case Some(parsed) => Some(Card(i, TitleOf(n), dateText, parsed))
  }

  /** A choice per node whose present cards carry that node's index. */
  predicate IndexedChoices(opts: seq<Option<Card>>)
  {
    forall i :: 0 <= i < |opts| && opts[i].Some? ==> opts[i].value.index == i
  }

  /** Each pushed card is the present choice at its own index, one of the first `n`. */
  lemma {:induction false} PushedFromChoices(opts: seq<Option<Card>>, n: nat)
    requires n <= |opts| && IndexedChoices(opts)
    ensures |Pushed(opts, n)| <= n
    ensures forall k :: 0 <= k < |Pushed(opts, n)| ==>
              var c := Pushed(opts, n)[k]; c.index < n && opts[c.index] == Some(c)
  {
    if n > 0 {
      PushedFromChoices(opts, n - 1);
      var before := Pushed(opts, n - 1);
      if opts[n - 1].Some? {
        assert Pushed(opts, n) == before + [opts[n - 1].value];
      } else {
        assert Pushed(opts, n) == before;
      }
    }
  }

  /** The pushed cards keep page order: their indices strictly increase. */
  lemma {:induction false} PushedInOrder(opts: seq<Option<Card>>, n: nat)
    requires n <= |opts| && IndexedChoices(opts)
    ensures forall k :: 0 <= k < |Pushed(opts, n)| ==> Pushed(opts, n)[k].index < n
    ensures forall k, l :: 0 <= k < l < |Pushed(opts, n)| ==> Pushed(opts, n)[k].index < Pushed(opts, n)[l].index
  {
    if n > 0 {
      PushedInOrder(opts, n - 1);
      var before := Pushed(opts, n - 1);
      if opts[n - 1].Some? {
        var after := before + [opts[n - 1].value];
        assert Pushed(opts, n) == after;
        assert after[|before|].index == n - 1;
        assert forall k :: 0 <= k < |before| ==> after[k] == before[k];
      } else {
        assert Pushed(opts, n) == before;
      }
    }
  }

  /** Some card in `cards` comes from node `i`. */
  predicate HasCardFor(cards: seq<Card>, i: nat)
  {
    exists k :: 0 <= k < |cards| && cards[k].index == i
  }

  /** Every present choice among the first `n` is pushed. */
  lemma {:induction false} PushedComplete(opts: seq<Option<Card>>, n: nat)
    requires n <= |opts| && IndexedChoices(opts)
    ensures forall i :: 0 <= i < n && opts[i].Some? ==> HasCardFor(Pushed(opts, n), i)
  {
    if n > 0 {
      PushedComplete(opts, n - 1);
      var before := Pushed(opts, n - 1);
      if opts[n - 1].Some? {
        var after := before + [opts[n - 1].value];
        assert Pushed(opts, n) == after;
        assert after[|before|].index == n - 1;
        forall i | 0 <= i < n - 1 && opts[i].Some? ensures HasCardFor(after, i) {
          var k :| 0 <= k < |before| && before[k].index == i;
          assert after[k] == before[k];
        }
      } else {
        assert Pushed(opts, n) == before;
      }
    }
  }

  /**
   * The built list holds the cards of exactly the nodes whose date text
   * parses, in page order, each built from its own node.
   */
  lemma BuiltCards(nodes: seq<CardNode>)
    ensures var cards := Pushed(Choices(nodes, CardAt), |nodes|);
            && |cards| <= |nodes|
            && (forall k :: 0 <= k < |cards| ==> cards[k].index < |nodes| && CardAt(cards[k].index, nodes[cards[k].index]) == Some(cards[k]))
            && (forall k, l :: 0 <= k < l < |cards| ==> cards[k].index < cards[l].index)
            && (forall i :: 0 <= i < |nodes| && ParseRaceDate(DateTextOf(nodes[i])).Some? ==> HasCardFor(cards, i))
  {
    var opts := Choices(nodes, CardAt);
    assert IndexedChoices(opts);
    PushedFromChoices(opts, |nodes|);
    PushedInOrder(opts, |nodes|);
    PushedComplete(opts, |nodes|);
  }

  /** The `$("a.group").each(...)` loop: the callback pushes a card for every node whose date text parses. */
  method BuildCards(nodes: seq<CardNode>) returns (cards: seq<Card>)
    ensures cards == Pushed(Choices(nodes, CardAt), |nodes|)
  {
    cards := EachPush(nodes, CardAt);
  }

  // ---------------------------------------------------------------- last and next race

  /** `c.parsed && c.parsed.end < today`; an Invalid Date compares false. */
  predicate IsPast(c: Card, today: Date)
  {
    c.parsed.Dates? && Less(c.parsed.range.end, today)
  }

  /** `c.parsed && c.parsed.end >= today`; an Invalid Date compares false. */
  predicate IsUpcoming(c: Card, today: Date)
  {
    c.parsed.Dates? && !Less(c.parsed.range.end, today)
  }

  /** The sort key `c.parsed.end` (only read for cards with dates). */
  function EndOf(c: Card): Date
  {
    if c.parsed.Dates? then c.parsed.range.end else Date(0, 0, 0)
  }

  /** The sort key `c.parsed.start` (only read for cards with dates). */
  function StartOf(c: Card): Date
  {
    if c.parsed.Dates? then c.parsed.range.start else Date(0, 0, 0)
  }

  function PastOn(today: Date): Card -> bool
  {
    c => IsPast(c, today)
  }

  function UpcomingOn(today: Date): Card -> bool
  {
    c => IsUpcoming(c, today)
  }

  /** `past[0] ?? null`, `past` being the past cards by end, latest first. */
  function LastRace(cards: seq<Card>, now: Instant): (r: Option<Card>)
    ensures r.Some? ==> r.value in cards && IsPast(r.value, Today(now))
    ensures r.None? <==> forall c :: c in cards ==> !IsPast(c, Today(now))
  {
    var sorted := StableSort(EndOf, true, Filter(cards, PastOn(Today(now))));
    assert sorted != [] ==> sorted[0] in multiset(Filter(cards, PastOn(Today(now))));
    Head(sorted)
  }

  /** `nextCandidates[0] ?? null`, the candidates being the upcoming cards by start, earliest first. */
  function NextRace(cards: seq<Card>, now: Instant): (r: Option<Card>)
    ensures r.Some? ==> r.value in cards && IsUpcoming(r.value, Today(now))
    ensures r.None? <==> forall c :: c in cards ==> !IsUpcoming(c, Today(now))
  {
    var sorted := StableSort(StartOf, false, Filter(cards, UpcomingOn(Today(now))));
    assert sorted != [] ==> sorted[0] in multiset(Filter(cards, UpcomingOn(Today(now))));
    Head(sorted)
  }

  /**
   * A card with dates is past or upcoming and never both, a race ending
   * today is upcoming, and a card with Invalid Dates is neither.
   */
  lemma PastUpcomingPartition(c: Card, now: Instant)
    ensures c.parsed.Dates? ==> IsPast(c, Today(now)) != IsUpcoming(c, Today(now))
    ensures c.parsed.Dates? && c.parsed.range.end == now.date ==> IsUpcoming(c, Today(now))
    ensures c.parsed.InvalidDates? ==> !IsPast(c, Today(now)) && !IsUpcoming(c, Today(now))
  {
    if c.parsed.Dates? {
      LessIsStrictTotal(c.parsed.range.end, now.date, now.date);
    }
  }

  /** `cards[k]` is a past card with the latest end, and no earlier past card ends as late. */
  ghost predicate LatestPastAt(cards: seq<Card>, today: Date, k: int)
  {
    0 <= k < |cards| && IsPast(cards[k], today)
    && (forall j :: 0 <= j < |cards| && IsPast(cards[j], today) ==> LessEq(EndOf(cards[j]), EndOf(cards[k])))
    && (forall j :: 0 <= j < k && IsPast(cards[j], today) ==> Less(EndOf(cards[j]), EndOf(cards[k])))
  }

  /** `cards[k]` is an upcoming card with the earliest start, and no earlier upcoming card starts as early. */
  ghost predicate EarliestUpcomingAt(cards: seq<Card>, today: Date, k: int)
  {
    0 <= k < |cards| && IsUpcoming(cards[k], today)
    && (forall j :: 0 <= j < |cards| && IsUpcoming(cards[j], today) ==> LessEq(StartOf(cards[k]), StartOf(cards[j])))
    && (forall j :: 0 <= j < k && IsUpcoming(cards[j], today) ==> Less(StartOf(cards[k]), StartOf(cards[j])))
  }

  /**
   * The last race is the past card with the latest end, the earliest such
   * card in page order on a tie, and there is none exactly when no card is past.
   */
  lemma LastRaceIsLatestPast(cards: seq<Card>, now: Instant)
    ensures LastRace(cards, now).None? <==> forall j :: 0 <= j < |cards| ==> !IsPast(cards[j], Today(now))
    ensures LastRace(cards, now).Some? ==>
              exists k :: LatestPastAt(cards, Today(now), k) && LastRace(cards, now) == Some(cards[k])
  {
    var past := PastOn(Today(now));
    LatestFirst(cards, past, EndOf);
    if LastRace(cards, now).Some? {
      var k :| LatestAt(cards, past, EndOf, k) && LastRace(cards, now) == Some(cards[k]);
      assert LatestPastAt(cards, Today(now), k);
    }
  }

  /**
   * The next race is the upcoming card with the earliest start, the
   * earliest such card in page order on a tie, and there is none exactly
   * when no card is upcoming.
   */
  lemma NextRaceIsEarliestUpcoming(cards: seq<Card>, now: Instant)
    ensures NextRace(cards, now).None? <==> forall j :: 0 <= j < |cards| ==> !IsUpcoming(cards[j], Today(now))
    ensures NextRace(cards, now).Some? ==>
              exists k :: EarliestUpcomingAt(cards, Today(now), k) && NextRace(cards, now) == Some(cards[k])
  {
    var upcoming := UpcomingOn(Today(now));
    EarliestFirst(cards, upcoming, StartOf);
    if NextRace(cards, now).Some? {
      var k :| EarliestAt(cards, upcoming, StartOf, k) && NextRace(cards, now) == Some(cards[k]);
      assert EarliestUpcomingAt(cards, Today(now), k);
    }
  }

  /** The last race ended before today and the next one ends today or later, so the two differ. */
  lemma LastEndsBeforeNext(cards: seq<Card>, now: Instant)
    requires LastRace(cards, now).Some? && NextRace(cards, now).Some?
    ensures Less(EndOf(LastRace(cards, now).value), now.date)
    ensures !Less(EndOf(NextRace(cards, now).value), now.date)
    ensures Less(EndOf(LastRace(cards, now).value), EndOf(NextRace(cards, now).value))
    ensures LastRace(cards, now) != NextRace(cards, now)
  {
    LastRaceIsLatestPast(cards, now);
    NextRaceIsEarliestUpcoming(cards, now);
    var last, next := LastRace(cards, now).value, NextRace(cards, now).value;
    LessIsStrictTotal(EndOf(last), now.date, EndOf(next));
    LessIsStrictTotal(EndOf(next), now.date, EndOf(last));
  }

  // ---------------------------------------------------------------- locating the live element

  /** A live `a.group` handle: detached (its `evaluate` throws) or attached, with its `innerText` and whether its screenshot succeeds. */
  datatype LiveHandle = Detached | Attached(innerText: string, captures: bool)

  /**
   * The match test, in the page as in the fallback: the element text with
   * white-space runs collapsed and trimmed contains the non-empty title or
   * the non-empty date text.
   */
  predicate TextMatches(innerText: string, title: string, dateText: string)
  {
    var text := NormalizeSpaces(innerText);
    (title != [] && Contains(text, title)) || (dateText != [] && Contains(text, dateText))
  }

  /** The test depends only on the words of the element text, not on how white space separates them. */
  lemma MatchIgnoresSpacing(x: string, y: string, title: string, dateText: string)
    requires Fields(x) == Fields(y)
    ensures TextMatches(x, title, dateText) == TextMatches(y, title, dateText)
  {
    NormalizeIsJoin(x);
    NormalizeIsJoin(y);
  }

  predicate HandleMatches(h: LiveHandle, card: Card)
  {
    h.Attached? && TextMatches(h.innerText, card.title, card.dateText)
  }

  /** The in-page `evaluate` test of the primary loop, for one card; a detached handle never passes. */
  function HandleMatchesCard(card: Card): LiveHandle -> bool
  {
    h => HandleMatches(h, card)
  }

  /** The `$$eval` callback's test, for one card. */
  function MatchesCard(title: string, dateText: string): string -> bool
  {
    text => TextMatches(text, title, dateText)
  }

  /** How one `screenshotCard` call ends. */
  datatype Shot =
    | NoCard                                // no card: skipped
    | Primary(element: nat, saved: bool)    // captured (or failed to) at the first matching live handle
    | Fallback(element: nat, saved: bool)   // captured (or failed to) at the index the re-scan found
    | NotLocated                            // no live handle and no re-scanned node matched

  /** The boolean `screenshotCard` returns. */
  function Saved(shot: Shot): (ok: bool)
    ensures ok <==> (shot.Primary? || shot.Fallback?) && shot.saved
  {
    match shot
    case Primary(_, saved) => saved
    case Fallback(_, saved) => saved
    case _ => false
  }

  /**
   * `screenshotCard`. `handles` are the live handles taken after parsing;
   * `rescan` is the `innerText` of every `a.group` at fallback time, or
   * None when that `$$eval` fails; `handlesNow` says, per handle of the
   * second `$$` query, whether its screenshot succeeds.
   */
  method ScreenshotCard(card: Option<Card>, handles: seq<LiveHandle>, rescan: Option<seq<string>>, handlesNow: seq<bool>)
    returns (shot: Shot)
    ensures shot == NoCard <==> card.None?
    ensures card.Some? && (exists j :: 0 <= j < |handles| && HandleMatches(handles[j], card.value)) ==> shot.Primary?
    ensures shot.Primary? ==>
              && card.Some? && shot.element < |handles|
              && HandleMatches(handles[shot.element], card.value)
              && (forall j :: 0 <= j < shot.element ==> !HandleMatches(handles[j], card.value))
              && shot.saved == handles[shot.element].captures
    ensures shot.Fallback? ==>
              && card.Some? && rescan.Some? && shot.element < |rescan.value|
              && (forall j :: 0 <= j < |handles| ==> !HandleMatches(handles[j], card.value))
              && TextMatches(rescan.value[shot.element], card.value.title, card.value.dateText)
              && (forall j :: 0 <= j < shot.element ==> !TextMatches(rescan.value[j], card.value.title, card.value.dateText))
              && shot.saved == (shot.element < |handlesNow| && handlesNow[shot.element])
    ensures shot == NotLocated <==>
              && card.Some?
              && (forall j :: 0 <= j < |handles| ==> !HandleMatches(handles[j], card.value))
              && (rescan.None? || forall j :: 0 <= j < |rescan.value| ==> !TextMatches(rescan.value[j], card.value.title, card.value.dateText))
  {
    if card.None? {
      return NoCard;
    }
    var c := card.value;
    var i := IndexOfFirst(handles, HandleMatchesCard(c));
    if i >= 0 {
      return Primary(i, handles[i].captures);
    }
    var found := -1;
    if rescan.Some? {
      found := IndexOfFirst(rescan.value, MatchesCard(c.title, c.dateText));
    }
    if found >= 0 {
      var saved := found < |handlesNow| && handlesNow[found];
      return Fallback(found, saved);
    }
    return NotLocated;
  }
}
