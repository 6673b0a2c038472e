/**
 * The decision core of `screenshot1.js`: its token-based date parser, the
 * list of all cards, the choice of the last and the next race (where a
 * "NEXT RACE" badge wins over the dates), and the resolution of a card to
 * the element to capture.
 */
module Screenshot1 {
  import opened Wrappers
  import opened JsText
  import opened Calendar
  import opened Selection
  import opened Cards

  // ---------------------------------------------------------------- parseRaceDate

  /** `/^\d+$/`: a token of decimal digits only. */
  predicate IsNumberToken(t: string)
  {
    t != [] && AllDigits(t)
  }

  /** `/^[A-Za-z]{3,}$/`: a token of three or more ASCII letters. */
  predicate IsWordToken(t: string)
  {
    |t| >= 3 && AllLetters(t)
  }

  /** `monthMap[w] ?? 0`: a name the table lacks counts as January. */
  function MonthOrJanuary(w: string): (m: nat)
    ensures m < 12
    ensures w in MonthNumbers ==> m == MonthNumbers[w]
    ensures w !in MonthNumbers ==> m == 0
  {
    match MonthIndex(w)
    case Some(m) => m
    case None => 0
  }

  /** `tokens.filter(t => /^\d+$/.test(t)).map(Number)`. */
  function NumberValues(tokens: seq<string>): (nums: seq<nat>)
    ensures |nums| == |Filter(tokens, IsNumberToken)|
    ensures forall k :: 0 <= k < |nums| ==> nums[k] == DecimalValue(Filter(tokens, IsNumberToken)[k])
  {
    var digits := Filter(tokens, IsNumberToken);
    seq(|digits|, i requires 0 <= i < |digits| => DecimalValue(digits[i]))
  }

  /** The second half of `parseRaceDate`: the dates read from the white-space tokens of the text. */
  function DatesOfTokens(tokens: seq<string>): (r: Option<Interval>)
    ensures r.Some? ==>
              && r.value.start.year == SeasonYear && r.value.end.year == SeasonYear
              && r.value.start.month == r.value.end.month && r.value.start.month < 12
  {
    var nums := NumberValues(tokens);
    var months := Filter(tokens, IsWordToken);
    if nums == [] || months == [] then None
    else
      var month := MonthOrJanuary(months[|months| - 1][..3]);
      Some(Interval(Date(SeasonYear, month, nums[0]), Date(SeasonYear, month, if |nums| > 1 then nums[1] else nums[0])))
  }

  /** `parseRaceDate` of screenshot1.js. */
  function ParseRaceDate(text: string): (r: Option<Interval>)
    ensures r.Some? ==>
              && r.value.start.year == SeasonYear && r.value.end.year == SeasonYear
              && r.value.start.month == r.value.end.month && r.value.start.month < 12
  {
    if text == [] then None else DatesOfTokens(Tokens(text))
  }

  /** The parser gives null exactly for empty text, or when no token is a number, or no token is a word of three or more letters. */
  lemma ParseRaceDateAbsent(text: string)
    ensures ParseRaceDate(text).None? <==>
              || text == []
              || (forall i :: 0 <= i < |Tokens(text)| ==> !IsNumberToken(Tokens(text)[i]))
              || (forall i :: 0 <= i < |Tokens(text)| ==> !IsWordToken(Tokens(text)[i]))
  {
    DatesOfTokensAbsent(Tokens(text));
  }

  lemma DatesOfTokensAbsent(tokens: seq<string>)
    ensures DatesOfTokens(tokens).None? <==>
              || (forall i :: 0 <= i < |tokens| ==> !IsNumberToken(tokens[i]))
              || (forall i :: 0 <= i < |tokens| ==> !IsWordToken(tokens[i]))
  {
    if forall i :: 0 <= i < |tokens| ==> !IsNumberToken(tokens[i]) {
      FilterNone(tokens, IsNumberToken);
    }
    if forall i :: 0 <= i < |tokens| ==> !IsWordToken(tokens[i]) {
      FilterNone(tokens, IsWordToken);
    }
  }

  /**
   * When the parser gives dates, the start day is the first numeric token,
   * the end day the next numeric token or, when there is none, the first
   * again; the month is read from the first three letters of the last word token.
   */
  lemma ParseRaceDateFields(text: string)
    requires ParseRaceDate(text).Some?
    ensures var tokens, iv := Tokens(text), ParseRaceDate(text).value;
            exists i :: && FirstAt(tokens, IsNumberToken, i)
                        && iv.start.day == DecimalValue(tokens[i])
                        && (NoneAfter(tokens, IsNumberToken, i) ==> iv.end.day == iv.start.day)
                        && (forall j :: NextAfter(tokens, IsNumberToken, i, j) ==> iv.end.day == DecimalValue(tokens[j]))
    ensures var tokens, iv := Tokens(text), ParseRaceDate(text).value;
            exists l :: LastAt(tokens, IsWordToken, l) && iv.start.month == MonthOrJanuary(tokens[l][..3])
  {
    DayTokens(Tokens(text));
    MonthToken(Tokens(text));
  }

  /** The days of the dates read from `tokens`. */
  lemma DayTokens(tokens: seq<string>)
    requires DatesOfTokens(tokens).Some?
    ensures var iv := DatesOfTokens(tokens).value;
            exists i :: && FirstAt(tokens, IsNumberToken, i)
                        && iv.start.day == DecimalValue(tokens[i])
                        && (NoneAfter(tokens, IsNumberToken, i) ==> iv.end.day == iv.start.day)
                        && (forall j :: NextAfter(tokens, IsNumberToken, i, j) ==> iv.end.day == DecimalValue(tokens[j]))
  {
    var i := FirstIndex(tokens, IsNumberToken).value;
    FilterFirstTwo(tokens, IsNumberToken, i);
  }

  /** The month of the dates read from `tokens`. */
  lemma MonthToken(tokens: seq<string>)
    requires DatesOfTokens(tokens).Some?
    ensures exists l :: LastAt(tokens, IsWordToken, l) && DatesOfTokens(tokens).value.start.month == MonthOrJanuary(tokens[l][..3])
  {
    var months := Filter(tokens, IsWordToken);
    FilterLast(tokens, IsWordToken);
    var l :| LastAt(tokens, IsWordToken, l) && months[|months| - 1] == tokens[l];
    assert DatesOfTokens(tokens).value.start.month == MonthOrJanuary(tokens[l][..3]);
  }

  lemma NumberIsNoWord(t: string)
    requires IsNumberToken(t)
    ensures !IsWordToken(t) && forall i :: 0 <= i < |t| ==> !IsSpace(t[i])
  {
    assert IsDigit(t[0]);
  }

  lemma WordIsNoNumber(t: string)
    requires IsWordToken(t)
    ensures !IsNumberToken(t) && forall i :: 0 <= i < |t| ==> !IsSpace(t[i])
  {
    assert IsAsciiLetter(t[0]);
  }

  /** The fields of "- D W". */
  lemma FieldsOfTail(y: string, w: string)
    requires IsNumberToken(y) && IsWordToken(w)
    ensures Fields("-" + " " + (y + " " + w)) == ["-", y, w]
  {
    NumberIsNoWord(y);
    WordIsNoNumber(w);
    FieldsCons("-", y + " " + w);
    FieldsCons(y, w);
    FieldsSingle(w);
  }

  /** The tokens of "D1 - D2 W". */
  lemma TokensOfRange(x: string, y: string, w: string)
    requires IsNumberToken(x) && IsNumberToken(y) && IsWordToken(w)
    ensures Tokens(x + " - " + y + " " + w) == [x, "-", y, w]
  {
    NumberIsNoWord(x);
    WordIsNoNumber(w);
    var r := "-" + " " + (y + " " + w);
    assert x + " - " + y + " " + w == x + " " + r;
    FieldsOfTail(y, w);
    assert r[|r| - 1] == w[|w| - 1];
    TokensOfJoin(x, r);
  }

  /** "D1 W1 - D2 W2" as one token and a space before the rest. */
  lemma CrossMonthText(x: string, w1: string, y: string, w2: string)
    ensures x + " " + w1 + " - " + y + " " + w2 == x + " " + (w1 + " " + ("-" + " " + (y + " " + w2)))
  {
  }

  /** The tokens of "D1 W1 - D2 W2". */
  lemma TokensOfCrossMonth(x: string, w1: string, y: string, w2: string)
    requires IsNumberToken(x) && IsWordToken(w1) && IsNumberToken(y) && IsWordToken(w2)
    ensures Tokens(x + " " + w1 + " - " + y + " " + w2) == [x, w1, "-", y, w2]
  {
    NumberIsNoWord(x);
    WordIsNoNumber(w1);
    WordIsNoNumber(w2);
    var r := w1 + " " + ("-" + " " + (y + " " + w2));
    CrossMonthText(x, w1, y, w2);
    FieldsOfTail(y, w2);
    FieldsCons(w1, "-" + " " + (y + " " + w2));
    assert r[|r| - 1] == w2[|w2| - 1];
    TokensOfJoin(x, r);
  }

  /** The numeric and the word tokens of "D1 - D2 W". */
  lemma FiltersOfRange(x: string, y: string, w: string)
    requires IsNumberToken(x) && IsNumberToken(y) && IsWordToken(w)
    ensures Filter([x, "-", y, w], IsNumberToken) == [x, y]
    ensures Filter([x, "-", y, w], IsWordToken) == [w]
  {
    NumberIsNoWord(x);
    assert [x, "-", y, w] == [x] + ["-", y, w];
    FilterCons(x, ["-", y, w], IsNumberToken);
    FilterCons(x, ["-", y, w], IsWordToken);
    FiltersOfTail(y, w);
  }

  /** The numeric and the word tokens of "D1 W1 - D2 W2". */
  lemma FiltersOfCrossMonth(x: string, w1: string, y: string, w2: string)
    requires IsNumberToken(x) && IsWordToken(w1) && IsNumberToken(y) && IsWordToken(w2)
    ensures Filter([x, w1, "-", y, w2], IsNumberToken) == [x, y]
    ensures Filter([x, w1, "-", y, w2], IsWordToken) == [w1, w2]
  {
    WordIsNoNumber(w1);
    NumberIsNoWord(x);
    assert [x, w1, "-", y, w2] == [x] + ([w1] + ["-", y, w2]);
    FilterCons(x, [w1] + ["-", y, w2], IsNumberToken);
    FilterCons(w1, ["-", y, w2], IsNumberToken);
    FilterCons(x, [w1] + ["-", y, w2], IsWordToken);
    FilterCons(w1, ["-", y, w2], IsWordToken);
    FiltersOfTail(y, w2);
  }

  /** The numeric and the word tokens of "- D W". */
  lemma FiltersOfTail(y: string, w: string)
    requires IsNumberToken(y) && IsWordToken(w)
    ensures Filter(["-", y, w], IsNumberToken) == [y]
    ensures Filter(["-", y, w], IsWordToken) == [w]
  {
    NumberIsNoWord(y);
    WordIsNoNumber(w);
    assert !IsDigit("-"[0]);
    assert ["-", y, w] == ["-"] + ([y] + ([w] + []));
    FilterCons("-", [y] + ([w] + []), IsNumberToken);
    FilterCons(y, [w] + [], IsNumberToken);
    FilterCons(w, [], IsNumberToken);
    FilterCons("-", [y] + ([w] + []), IsWordToken);
    FilterCons(y, [w] + [], IsWordToken);
    FilterCons(w, [], IsWordToken);
  }

  /**
   * "D1 - D2 W": the days are read as written and the month comes from the
   * first three letters of `W`, January when those are not in the table;
   * nothing moves the end when it falls before the start.
   */
  lemma ParseDayRange(x: string, y: string, w: string)
    requires IsNumberToken(x) && IsNumberToken(y) && IsWordToken(w)
    ensures var m := MonthOrJanuary(w[..3]);
            ParseRaceDate(x + " - " + y + " " + w)
              == Some(Interval(Date(SeasonYear, m, DecimalValue(x)), Date(SeasonYear, m, DecimalValue(y))))
  {
    TokensOfRange(x, y, w);
    FiltersOfRange(x, y, w);
  }

  /** "D1 W1 - D2 W2": both days take the month of the last word, `W2`. */
  lemma ParseCrossMonth(x: string, w1: string, y: string, w2: string)
    requires IsNumberToken(x) && IsWordToken(w1) && IsNumberToken(y) && IsWordToken(w2)
    ensures var m := MonthOrJanuary(w2[..3]);
            ParseRaceDate(x + " " + w1 + " - " + y + " " + w2)
              == Some(Interval(Date(SeasonYear, m, DecimalValue(x)), Date(SeasonYear, m, DecimalValue(y))))
  {
    TokensOfCrossMonth(x, w1, y, w2);
    FiltersOfCrossMonth(x, w1, y, w2);
  }

  /** "30 - 2 Dec": 30 December to 2 December 2025, an end before the start. */
  lemma ExampleEndBeforeStart(x: string, y: string, w: string)
    requires x == "30" && y == "2" && w == "Dec"
    ensures ParseRaceDate(x + " - " + y + " " + w) == Some(Interval(Date(2025, 11, 30), Date(2025, 11, 2)))
    ensures Less(ParseRaceDate(x + " - " + y + " " + w).value.end, ParseRaceDate(x + " - " + y + " " + w).value.start)
  {
    ExampleNumerals();
    assert w[..3] == "Dec";
    ParseDayRange(x, y, w);
  }

  /** "28 - 30 NOV": the upper-case month is not in the table, so the race is placed in January. */
  lemma ExampleUpperCase(x: string, y: string, w: string)
    requires x == "28" && y == "30" && w == "NOV"
    ensures ParseRaceDate(x + " - " + y + " " + w) == Some(Interval(Date(2025, 0, 28), Date(2025, 0, 30)))
  {
    ExampleNumerals();
    assert w[..3] == "NOV";
    assert "NOV" !in MonthNumbers;
    ParseDayRange(x, y, w);
  }

  /** "28 - 30 November": a full month name is cut to its first three letters. */
  lemma ExampleFullName(x: string, y: string, w: string)
    requires x == "28" && y == "30" && w == "November"
    ensures ParseRaceDate(x + " - " + y + " " + w) == Some(Interval(Date(2025, 10, 28), Date(2025, 10, 30)))
  {
    ExampleNumerals();
    assert w[..3] == "Nov";
    ParseDayRange(x, y, w);
  }

  /** "30 Nov - 2 Dec": both days take December, so the range runs from 30 back to 2 December. */
  lemma ExampleCrossMonth(x: string, w1: string, y: string, w2: string)
    requires x == "30" && w1 == "Nov" && y == "2" && w2 == "Dec"
    ensures ParseRaceDate(x + " " + w1 + " - " + y + " " + w2) == Some(Interval(Date(2025, 11, 30), Date(2025, 11, 2)))
  {
    ExampleNumerals();
    assert w2[..3] == "Dec";
    ParseCrossMonth(x, w1, y, w2);
  }

  // ---------------------------------------------------------------- cards

  /** A card record: its position among the `a.group` elements, its texts, its parse (or null) and its badge flag. */
  datatype Card = Card(index: nat, title: string, dateText: string, parsed: Option<Interval>, isNextRace: bool)

  /** The card the `.each` callback pushes for node `i`: one for every node. */
  function CardAt(i: nat, n: CardNode): (r: Option<Card>)
    ensures r.Some? && r.value.index == i
    ensures r.Some? ==> r.value.title == TitleOf(n) && r.value.dateText == DateTextOf(n)
    ensures r.Some? ==> r.value.parsed == ParseRaceDate(DateTextOf(n))
    ensures r.Some? ==> (r.value.isNextRace <==> exists b :: 0 <= b < |n.badges| && Trim(n.badges[b]) == "NEXT RACE")
  {
    var dateText := DateTextOf(n);
    Some(Card(i, TitleOf(n), dateText, ParseRaceDate(dateText), HasNextRaceBadge(n.badges)))
  }

  /** Every node gives a card, in page order, built from that node, whether or not its date parses. */
  lemma BuiltCards(nodes: seq<CardNode>)
    ensures var cards := Pushed(Choices(nodes, CardAt), |nodes|);
            && |cards| == |nodes|
            && forall i :: 0 <= i < |nodes| ==> cards[i].index == i && CardAt(i, nodes[i]) == Some(cards[i])
  {
    var opts := Choices(nodes, CardAt);
    PushedAll(opts, |nodes|);
  }

  /** The `$("a.group").each(...)` loop: the callback pushes a card for every node. */
  method BuildCards(nodes: seq<CardNode>) returns (cards: seq<Card>)
    ensures cards == Pushed(Choices(nodes, CardAt), |nodes|)
  {
    cards := EachPush(nodes, CardAt);
  }

  // ---------------------------------------------------------------- last and next race

  /** `c.parsed && c.parsed.end < now`, against the full current instant. */
  predicate IsPast(c: Card, now: Instant)
  {
    c.parsed.Some? && MidnightBefore(c.parsed.value.end, now)
  }

  /** `c.parsed && c.parsed.start >= now`. */
  predicate IsFuture(c: Card, now: Instant)
  {
    c.parsed.Some? && !MidnightBefore(c.parsed.value.start, now)
  }

  /** The sort key `c.parsed.end` (only read for parsed cards). */
  function EndOf(c: Card): Date
  {
    if c.parsed.Some? then c.parsed.value.end else Date(0, 0, 0)
  }

  /** The sort key `c.parsed.start` (only read for parsed cards). */
  function StartOf(c: Card): Date
  {
    if c.parsed.Some? then c.parsed.value.start else Date(0, 0, 0)
  }

  function PastAt(now: Instant): Card -> bool
  {
    c => IsPast(c, now)
  }

  function FutureAt(now: Instant): Card -> bool
  {
    c => IsFuture(c, now)
  }

  predicate IsMarkedNext(c: Card)
  {
    c.isNextRace
  }

  /** `past[0] || null`, `past` being the past cards by end, latest first. */
  function LastRace(cards: seq<Card>, now: Instant): (r: Option<Card>)
    ensures r.Some? ==> r.value in cards && IsPast(r.value, now)
    ensures r.None? <==> forall c :: c in cards ==> !IsPast(c, now)
  {
    var sorted := StableSort(EndOf, true, Filter(cards, PastAt(now)));
    assert sorted != [] ==> sorted[0] in multiset(Filter(cards, PastAt(now)));
    Head(sorted)
  }

  /** `future[0]`, `future` being the future cards by start, earliest first. */
  function FirstFuture(cards: seq<Card>, now: Instant): (r: Option<Card>)
    ensures r.Some? ==> r.value in cards && IsFuture(r.value, now)
    ensures r.None? <==> forall c :: c in cards ==> !IsFuture(c, now)
  {
    var sorted := StableSort(StartOf, false, Filter(cards, FutureAt(now)));
    assert sorted != [] ==> sorted[0] in multiset(Filter(cards, FutureAt(now)));
    Head(sorted)
  }

  /** `cards.find(c => c.isNextRace) || future[0] || null`. */
  function NextRace(cards: seq<Card>, now: Instant): (r: Option<Card>)
    ensures r.Some? ==> r.value in cards && (r.value.isNextRace || IsFuture(r.value, now))
    ensures (exists c :: c in cards && c.isNextRace) ==> r.Some? && r.value.isNextRace
    ensures r.None? <==> forall c :: c in cards ==> !c.isNextRace && !IsFuture(c, now)
  {
    var marked := Find(cards, IsMarkedNext);
    if marked.Some? then marked else FirstFuture(cards, now)
  }

  /** `cards[k]` is a past card with the latest end, and no earlier past card ends as late. */
  ghost predicate LatestPastAt(cards: seq<Card>, now: Instant, k: int)
  {
    0 <= k < |cards| && IsPast(cards[k], now)
    && (forall j :: 0 <= j < |cards| && IsPast(cards[j], now) ==> LessEq(EndOf(cards[j]), EndOf(cards[k])))
    && (forall j :: 0 <= j < k && IsPast(cards[j], now) ==> Less(EndOf(cards[j]), EndOf(cards[k])))
  }

  /** `cards[k]` is a future card with the earliest start, and no earlier future card starts as early. */
  ghost predicate EarliestFutureAt(cards: seq<Card>, now: Instant, k: int)
  {
    0 <= k < |cards| && IsFuture(cards[k], now)
    && (forall j :: 0 <= j < |cards| && IsFuture(cards[j], now) ==> LessEq(StartOf(cards[k]), StartOf(cards[j])))
    && (forall j :: 0 <= j < k && IsFuture(cards[j], now) ==> Less(StartOf(cards[k]), StartOf(cards[j])))
  }

  /**
   * The last race is the past card with the latest end, the earliest such
   * card in page order on a tie, and there is none exactly when no card is past.
   */
  lemma LastRaceIsLatestPast(cards: seq<Card>, now: Instant)
    ensures LastRace(cards, now).None? <==> forall j :: 0 <= j < |cards| ==> !IsPast(cards[j], now)
    ensures LastRace(cards, now).Some? ==>
              exists k :: LatestPastAt(cards, now, k) && LastRace(cards, now) == Some(cards[k])
  {
    var past := PastAt(now);
    LatestFirst(cards, past, EndOf);
    if LastRace(cards, now).Some? {
      var k :| LatestAt(cards, past, EndOf, k) && LastRace(cards, now) == Some(cards[k]);
      assert LatestPastAt(cards, now, k);
    }
  }

  /** A badge decides: the next race is the first card in page order that carries it, whatever its dates. */
  lemma NextRaceByBadge(cards: seq<Card>, now: Instant)
    requires exists j :: 0 <= j < |cards| && cards[j].isNextRace
    ensures exists k :: FirstAt(cards, IsMarkedNext, k) && NextRace(cards, now) == Some(cards[k])
  {
    var k := FirstIndex(cards, IsMarkedNext).value;
    assert FirstAt(cards, IsMarkedNext, k);
  }

  /**
   * Without a badge the next race is the future card with the earliest
   * start, the earliest such card in page order on a tie, and there is none
   * exactly when no card is future.
   */
  lemma NextRaceByDate(cards: seq<Card>, now: Instant)
    requires forall j :: 0 <= j < |cards| ==> !cards[j].isNextRace
    ensures NextRace(cards, now).None? <==> forall j :: 0 <= j < |cards| ==> !IsFuture(cards[j], now)
    ensures NextRace(cards, now).Some? ==>
              exists k :: EarliestFutureAt(cards, now, k) && NextRace(cards, now) == Some(cards[k])
  {
    var future := FutureAt(now);
    assert NextRace(cards, now) == FirstFuture(cards, now);
    EarliestFirst(cards, future, StartOf);
    if NextRace(cards, now).Some? {
      var k :| EarliestAt(cards, future, StartOf, k) && NextRace(cards, now) == Some(cards[k]);
      assert EarliestFutureAt(cards, now, k);
    }
  }

  /**
   * A race under way (started before now, ending at or after now) is
   * neither past nor future; a card whose start does not follow its end is
   * never both.
   */
  lemma PastFutureCases(c: Card, now: Instant)
    requires c.parsed.Some?
    ensures !IsPast(c, now) && !IsFuture(c, now) <==>
              MidnightBefore(c.parsed.value.start, now) && !MidnightBefore(c.parsed.value.end, now)
    ensures LessEq(c.parsed.value.start, c.parsed.value.end) ==> !(IsPast(c, now) && IsFuture(c, now))
  {
    var iv := c.parsed.value;
    LessIsStrictTotal(iv.start, iv.end, now.date);
    LessIsStrictTotal(iv.end, iv.start, now.date);
  }

  /**
   * A card parsed from "30 - 2 Dec" ends before it starts, so on 10 December
   * it is both past and future: the same card is the last and the next race.
   */
  lemma ExampleLastIsNext(cards: seq<Card>, now: Instant)
    requires cards == [Card(0, "Abu Dhabi", "30 - 2 Dec", Some(Interval(Date(2025, 11, 30), Date(2025, 11, 2))), false)]
    requires now == Instant(Date(2025, 11, 10), 43_200_000)
    ensures LastRace(cards, now) == NextRace(cards, now) == Some(cards[0])
  {
    assert IsPast(cards[0], now) && IsFuture(cards[0], now);
    assert Filter(cards, PastAt(now)) == cards;
    assert Filter(cards, FutureAt(now)) == cards;
    assert Find(cards, IsMarkedNext).None?;
  }

  // ---------------------------------------------------------------- resolving the element

  /** An `a` element of the live page: its XPath string value and whether its screenshot succeeds. */
  datatype Anchor = Anchor(stringValue: string, captures: bool)

  /** How one `screenshotCard` call ends. */
  datatype Shot =
    | NoCard                      // no card: skipped
    | SavedAt(element: nat)       // captured the live handle at the card's index
    | SavedFallback(element: nat) // captured the first anchor containing the title
    | FallbackMissed              // no handle at the index and no anchor contains the title
    | Fatal                       // a screenshot threw: the error ends the run

  /** The XPath test `contains(., "<title without double quotes>")`, for one card. */
  function ContainsTitle(title: string): Anchor -> bool
  {
    (a: Anchor) => Contains(a.stringValue, StripQuotes(title))
  }

  /**
   * `screenshotCard` of screenshot1.js. `handles` says, for each live
   * `a.group` handle, whether scrolling to it and capturing it succeed;
   * `anchors` is every `a` element of the page in document order.
   */
  method ScreenshotCard(card: Option<Card>, handles: seq<bool>, anchors: seq<Anchor>) returns (shot: Shot)
    ensures shot == NoCard <==> card.None?
    ensures card.Some? && card.value.index < |handles| ==>
              shot == if handles[card.value.index] then SavedAt(card.value.index) else Fatal
    ensures shot.SavedAt? ==>
              card.Some? && card.value.index < |handles| && shot.element == card.value.index && handles[shot.element]
    ensures card.Some? && card.value.index >= |handles|
            && (exists k :: FirstAt(anchors, ContainsTitle(card.value.title), k) && anchors[k].captures) ==>
              shot.SavedFallback?
    ensures shot.SavedFallback? ==>
              && card.Some? && card.value.index >= |handles|
              && FirstAt(anchors, ContainsTitle(card.value.title), shot.element)
              && anchors[shot.element].captures
    ensures shot == FallbackMissed <==>
              && card.Some? && card.value.index >= |handles|
              && forall j :: 0 <= j < |anchors| ==> !Contains(anchors[j].stringValue, StripQuotes(card.value.title))
    ensures shot == Fatal <==>
              && card.Some?
              && if card.value.index < |handles| then !handles[card.value.index]
                 else exists k :: FirstAt(anchors, ContainsTitle(card.value.title), k) && !anchors[k].captures
  {
    if card.None? {
      return NoCard;
    }
    var c := card.value;
    if c.index < |handles| {
      if handles[c.index] {
        return SavedAt(c.index);
      }
      return Fatal;
    }
    var fallback := FirstIndex(anchors, ContainsTitle(c.title));
    if fallback.None? {
      return FallbackMissed;
    }
    var k := fallback.value;
    assert FirstAt(anchors, ContainsTitle(c.title), k);
    if anchors[k].captures {
      return SavedFallback(k);
    }
    return Fatal;
  }
}
