/**
 * One `a.group` race card of the page snapshot, reduced to the text of the
 * elements the scripts look up in it. Each field is the text of the first
 * element the selector finds, or "" when it finds none, exactly as
 * `.find(sel).first().text()` gives it; the scripts trim it themselves.
 */
module Cards {
  import opened Wrappers
  import opened JsText
  import opened Selection

  datatype CardNode = CardNode(
    displayTitle: string,    // p.typography-module_display-xl-bold__Gyl5W
    firstParagraph: string,  // the first p
    upcomingDate: string,    // the upcoming-style bold date span (selector varies by script)
    pastDate: string,        // span.typography-module_technical-xs-regular__-W0Gs
    badges: seq<string>)     // every span.typography-module_body-2-xs-bold__M03Ei

  /** `specific.trim() || first.trim()`: the race title, falling back to the first paragraph. */
  function TitleOf(n: CardNode): (t: string)
    ensures Trimmed(t)
    ensures Trim(n.displayTitle) != [] ==> t == Trim(n.displayTitle)
    ensures Trim(n.displayTitle) == [] ==> t == Trim(n.firstParagraph)
  {
    var specific := Trim(n.displayTitle);
    if specific != [] then specific else Trim(n.firstParagraph)
  }

  /** `dateFuture || datePast || ""`: the upcoming-style date when it has text, else the past-style one. */
  function DateTextOf(n: CardNode): (d: string)
    ensures Trimmed(d)
    ensures Trim(n.upcomingDate) != [] ==> d == Trim(n.upcomingDate)
    ensures Trim(n.upcomingDate) == [] ==> d == Trim(n.pastDate)
  {
    var upcoming := Trim(n.upcomingDate);
    if upcoming != [] then upcoming else Trim(n.pastDate)
  }

  predicate IsNextRaceBadge(text: string)
  {
    Trim(text) == "NEXT RACE"
  }

  /** `$el.find(badge).filter(s => $(s).text().trim() === "NEXT RACE").length > 0`. */
  function HasNextRaceBadge(badges: seq<string>): (b: bool)
    ensures b <==> exists i :: 0 <= i < |badges| && Trim(badges[i]) == "NEXT RACE"
  {
    var hits := Filter(badges, IsNextRaceBadge);
    assert hits != [] ==> hits[0] in badges;
    |hits| > 0
  }

  /** What an `.each((i, el) => …)` callback pushes for each node: `f(i, node)`, or nothing for None. */
  function Choices<N, C>(nodes: seq<N>, f: (nat, N) -> Option<C>): (opts: seq<Option<C>>)
    ensures |opts| == |nodes|
    ensures forall i :: 0 <= i < |nodes| ==> opts[i] == f(i, nodes[i])
  {
    seq(|nodes|, i requires 0 <= i < |nodes| => f(i, nodes[i]))
  }

  /** The values pushed for the first `n` choices, in order. */
  function Pushed<C>(opts: seq<Option<C>>, n: nat): seq<C>
    requires n <= |opts|
  {
    if n == 0 then []
    else Pushed(opts, n - 1) + if opts[n - 1].Some? then [opts[n - 1].value] else []
  }

  /** What is pushed is exactly the present choices among the first `n`, no more entries than choices. */
  lemma {:induction false} PushedExactly<C>(opts: seq<Option<C>>, n: nat)
    requires n <= |opts|
    ensures |Pushed(opts, n)| <= n
    ensures forall x :: x in Pushed(opts, n) ==> exists i :: 0 <= i < n && opts[i] == Some(x)
    ensures forall i :: 0 <= i < n && opts[i].Some? ==> opts[i].value in Pushed(opts, n)
  {
    if n > 0 {
      PushedExactly(opts, n - 1);
      var prev := Pushed(opts, n - 1);
      if opts[n - 1].Some? {
        assert Pushed(opts, n) == prev + [opts[n - 1].value];
      } else {
        assert Pushed(opts, n) == prev;
      }
    }
  }

  /** When every choice is present, every one is pushed, in order. */
  lemma {:induction false} PushedAll<C>(opts: seq<Option<C>>, n: nat)
    requires n <= |opts| && forall i :: 0 <= i < n ==> opts[i].Some?
    ensures |Pushed(opts, n)| == n
    ensures forall k :: 0 <= k < n ==> Some(Pushed(opts, n)[k]) == opts[k]
  {
    if n > 0 {
      PushedAll(opts, n - 1);
      var prev := Pushed(opts, n - 1);
      var next := prev + [opts[n - 1].value];
      assert Pushed(opts, n) == next;
      assert forall k :: 0 <= k < n - 1 ==> next[k] == prev[k];
    }
  }

  /** `nodes.each((i, el) => { … if (…) out.push(…); })`, the callback being `f`. */
  method EachPush<N, C>(nodes: seq<N>, f: (nat, N) -> Option<C>) returns (out: seq<C>)
    ensures out == Pushed(Choices(nodes, f), |nodes|)
  {
    ghost var opts := Choices(nodes, f);
    out := [];
    for i := 0 to |nodes|
      invariant out == Pushed(opts, i)
    {
      var pushed := f(i, nodes[i]);
      assert pushed == opts[i];
      if pushed.Some? {
        out := out + [pushed.value];
      }
    }
  }
}
