/**
 * The events map screen (src/pages/EventsMap.tsx): the list of events it
 * shows is the catalog's upcoming events, or the whole catalog when none is
 * upcoming, and its footer reports how many are shown.
 */
module EventsMap {
  import opened Events
  import opened Decimal

  /** An event is upcoming when it starts strictly after `now`. */
  predicate IsUpcoming(e: Event, now: int)
  {
    e.dateTime > now
  }

  /** `a` is `b` with some elements dropped, the rest kept in order. */
  predicate SubsequenceOf(a: seq<Event>, b: seq<Event>)
    decreases |b|
  {
    if a == [] then true
    else if b == [] then false
    else (a[0] == b[0] && SubsequenceOf(a[1..], b[1..])) || SubsequenceOf(a, b[1..])
  }

  /**
   * The catalog's upcoming events (Array.prototype.filter): an event is kept,
   * as often as it occurs, exactly when it is upcoming.
   */
  function Upcoming(catalog: seq<Event>, now: int): (r: seq<Event>)
    ensures forall x :: multiset(r)[x] == if IsUpcoming(x, now) then multiset(catalog)[x] else 0
    ensures forall x :: x in r <==> x in catalog && IsUpcoming(x, now)
  {
    if catalog == [] then []
    else
      var rest := Upcoming(catalog[1..], now);
      assert catalog == [catalog[0]] + catalog[1..];
      assert multiset(catalog) == multiset{catalog[0]} + multiset(catalog[1..]);
      if IsUpcoming(catalog[0], now) then [catalog[0]] + rest else rest
  }

  /** The list the map shows: the upcoming events, or the whole catalog if there are none. */
  function ListUpcoming(catalog: seq<Event>, now: int): (r: seq<Event>)
    ensures (exists x :: x in catalog && IsUpcoming(x, now)) ==>
      r == Upcoming(catalog, now) && forall x :: x in r ==> IsUpcoming(x, now)
    ensures (forall x :: x in catalog ==> !IsUpcoming(x, now)) ==> r == catalog
    ensures |catalog| > 0 ==> |r| > 0
    ensures forall x :: x in r ==> x in catalog
  {
    var upcoming := Upcoming(catalog, now);
    if |upcoming| > 0 then upcoming else catalog
  }

  /** The footer under the list. */
  function FooterText(events: seq<Event>): string
  {
    NatToString(|events|) + " event(s) found"
  }

  /** The filter keeps the catalog's relative order. */
  lemma {:induction false} UpcomingKeepsOrder(catalog: seq<Event>, now: int)
    ensures SubsequenceOf(Upcoming(catalog, now), catalog)
  {
    if catalog != [] {
      UpcomingKeepsOrder(catalog[1..], now);
      var rest := Upcoming(catalog[1..], now);
      if IsUpcoming(catalog[0], now) {
        assert ([catalog[0]] + rest)[1..] == rest;
      } else if rest != [] {
        assert SubsequenceOf(rest, catalog[1..]);
      }
    }
  }

  /** Every sequence is a subsequence of itself. */
  lemma {:induction false} SubsequenceOfSelf(s: seq<Event>)
    ensures SubsequenceOf(s, s)
  {
    if s != [] {
      SubsequenceOfSelf(s[1..]);
    }
  }

  /** The shown list keeps the catalog's relative order and holds only catalog events. */
  lemma ListUpcomingKeepsOrder(catalog: seq<Event>, now: int)
    ensures SubsequenceOf(ListUpcoming(catalog, now), catalog)
  {
    UpcomingKeepsOrder(catalog, now);
    SubsequenceOfSelf(catalog);
  }

  /** An event starting exactly at `now` is not upcoming, so it is shown only in the fallback. */
  lemma StartingNowNotShown(catalog: seq<Event>, now: int, e: Event)
    requires e.dateTime == now
    requires exists x :: x in catalog && IsUpcoming(x, now)
    ensures e !in Upcoming(catalog, now)
    ensures e !in ListUpcoming(catalog, now)
  {
  }

  /** The footer's count, read back from its text, is the length of the shown list. */
  lemma FooterShowsCount(catalog: seq<Event>, now: int)
    ensures LeadingNumber(FooterText(ListUpcoming(catalog, now))) == |ListUpcoming(catalog, now)|
    ensures (forall x :: x in catalog ==> !IsUpcoming(x, now)) ==>
      LeadingNumber(FooterText(ListUpcoming(catalog, now))) == |catalog|
  {
    LeadingNumberOfRendered(|ListUpcoming(catalog, now)|, " event(s) found");
  }
}
