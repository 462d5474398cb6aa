/** The event registry as lists: what its operations do to them, and the set of subscriptions they stand for. */
module EventLists {
  import opened Words

  type Url = seq<byte>

  datatype Event = Event(url: Url, subscribers: seq<uint32>)

  // ---- The operations ----

  /** The first event with the URL, or the end of the list. */
  function Find(events: seq<Event>, url: Url): (i: nat)
    ensures i <= |events| && (i < |events| ==> events[i].url == url)
    ensures forall k :: 0 <= k < i ==> events[k].url != url
  {
    if events == [] || events[0].url == url then 0 else 1 + Find(events[1..], url)
  }

  /** A subscriber is put in front of the others, unless it is there already. */
  function Subscribed(e: Event, id: uint32): Event {
    if id in e.subscribers then e else e.(subscribers := [id] + e.subscribers)
  }

  /** am_register_event; the flags say whether the event and the subscriber can be allocated. */
  function Registered(events: seq<Event>, url: Url, id: uint32, eventOk: bool, subscriberOk: bool): (seq<Event>, bool) {
    if url == [] then (events, false)
    else
      var i := Find(events, url);
      if i == |events| then
        if !eventOk then (events, false)
        else if !subscriberOk then ([Event(url, [])] + events, false)
        else ([Event(url, [id])] + events, true)
      else if id in events[i].subscribers || subscriberOk then (events[i := Subscribed(events[i], id)], true)
      else (events, false)
  }

  function Without(ids: seq<uint32>, id: uint32): seq<uint32> {
    if ids == [] then [] else if ids[0] == id then ids[1..] else [ids[0]] + Without(ids[1..], id)
  }

  /** No URL stands for all. */
  predicate Matches(url: Option<Url>, e: Event) {
    url.None? || url.value == e.url
  }

  /** What is left of one event: nothing, if it matches and has no subscriber any more. */
  function Rest(e: Event, url: Option<Url>, id: uint32): seq<Event> {
    if !Matches(url, e) then [e]
    else
      var ids := Without(e.subscribers, id);
      if ids == [] then [] else [e.(subscribers := ids)]
  }

  /** am_unregister_event */
  function Unregistered(events: seq<Event>, url: Option<Url>, id: uint32): seq<Event> {
    if events == [] then [] else Rest(events[0], url, id) + Unregistered(events[1..], url, id)
  }

  /** am_publish_event: whom the event is sent to, in this order. */
  function Published(events: seq<Event>, url: Url): seq<uint32> {
    var i := Find(events, url);
    if i < |events| then events[i].subscribers else []
  }

  /** event_is_registered */
  predicate IsRegistered(events: seq<Event>, url: Url) {
    Find(events, url) < |events|
  }

  // ---- The set they stand for ----

  ghost predicate Distinct<T>(s: seq<T>) {
    forall i, j :: 0 <= i < j < |s| ==> s[i] != s[j]
  }

  ghost predicate WellFormed(events: seq<Event>) {
    && (forall i, j :: 0 <= i < j < |events| ==> events[i].url != events[j].url)
    && forall e <- events :: Distinct(e.subscribers) && e.url != []
  }

  ghost predicate NoEmpty(events: seq<Event>) {
    forall e <- events :: e.subscribers != []
  }

  /** The client is subscribed to the URL. */
  ghost predicate Has(events: seq<Event>, url: Url, id: uint32) {
    exists e :: e in events && e.url == url && id in e.subscribers
  }

  lemma HasAt(events: seq<Event>, url: Url, id: uint32)
    requires WellFormed(events)
    ensures Has(events, url, id) <==> id in Published(events, url)
  {
    var i := Find(events, url);
    if Has(events, url, id) {
      var k :| 0 <= k < |events| && events[k].url == url && id in events[k].subscribers;
      assert i <= k;
      assert i == k;
    }
    if i < |events| && id in events[i].subscribers { assert events[i] in events; }
  }

  /** Registering adds exactly one subscription, or none when it is refused. */
  lemma RegisterAdds(events: seq<Event>, url: Url, id: uint32, eventOk: bool, subscriberOk: bool,
                     url': Url, id': uint32)
    requires WellFormed(events)
    ensures
      var (after, ok) := Registered(events, url, id, eventOk, subscriberOk);
      && WellFormed(after)
      && (Has(after, url', id') <==> Has(events, url', id') || (ok && url' == url && id' == id))
      && (eventOk && subscriberOk && url != [] ==> ok)
  {
    var i := Find(events, url);
    var after := Registered(events, url, id, eventOk, subscriberOk).0;
    if url != [] {
      if i == |events| {
        if eventOk { NewInFront(events, Event(url, if subscriberOk then [id] else []), url', id'); }
      } else if id in events[i].subscribers {
        assert events[i := events[i]] == events && events[i] in events;
      } else if subscriberOk {
        Replaced(events, i, Subscribed(events[i], id), url', id');
      }
    }
  }

  lemma NewInFront(events: seq<Event>, e: Event, url: Url, id: uint32)
    requires WellFormed(events) && e.url != [] && Find(events, e.url) == |events| && Distinct(e.subscribers)
    ensures WellFormed([e] + events)
    ensures Has([e] + events, url, id) <==> Has(events, url, id) || (url == e.url && id in e.subscribers)
  {
    var after := [e] + events;
    assert after[0] in after;
    assert forall x :: x in after <==> x == e || x in events;
  }

  lemma Replaced(events: seq<Event>, i: nat, e: Event, url: Url, id: uint32)
    requires WellFormed(events) && i < |events| && e.url == events[i].url && Distinct(e.subscribers)
    ensures WellFormed(events[i := e])
    ensures Has(events[i := e], url, id) <==> if url == e.url then id in e.subscribers else Has(events, url, id)
  {
    var after := events[i := e];
    forall x | x in after ensures x == e || (x in events && x.url != e.url) {
      var k :| 0 <= k < |after| && after[k] == x;
    }
    assert after[i] in after;
    if url != e.url && Has(events, url, id) {
      var k :| 0 <= k < |events| && events[k].url == url && id in events[k].subscribers;
      assert after[k] in after;
    }
  }

  lemma {:induction false} WithoutDistinct(ids: seq<uint32>, id: uint32)
    requires Distinct(ids)
    ensures Distinct(Without(ids, id)) && forall x :: x in Without(ids, id) <==> x in ids && x != id
  {
    if ids != [] {
      var tail := ids[1..];
      assert Distinct(tail) && ids == [ids[0]] + tail;
      WithoutDistinct(tail, id);
      if ids[0] != id { assert forall k :: 0 <= k < |Without(tail, id)| ==> Without(tail, id)[k] in tail; }
    }
  }

  lemma {:induction false} UrlsStay(events: seq<Event>, url: Option<Url>, id: uint32, x: Event)
    requires x in Unregistered(events, url, id)
    ensures exists e :: e in events && e.url == x.url
  {
    if x in Rest(events[0], url, id) {
      assert events[0] in events;
    } else {
      UrlsStay(events[1..], url, id, x);
      var e :| e in events[1..] && e.url == x.url;
      assert e in events;
    }
  }

  /** Unregistering takes away exactly the client's subscriptions that match, and the events nobody is left for. */
  lemma {:induction false} UnregisterRemoves(events: seq<Event>, url: Option<Url>, id: uint32)
    requires WellFormed(events)
    ensures WellFormed(Unregistered(events, url, id))
    ensures NoEmpty(events) ==> NoEmpty(Unregistered(events, url, id))
    ensures forall u, i :: Has(Unregistered(events, url, id), u, i) <==>
      Has(events, u, i) && !(i == id && (url.None? || url.value == u))
    decreases |events|
  {
    if events != [] {
      var e, tail := events[0], events[1..];
      FirstApart(events);
      RestFits(e, url, id);
      hide *;
      UnregisterRemoves(tail, url, id);
      var rest, after := Rest(e, url, id), Unregistered(tail, url, id);
      forall x, y | x in rest && y in after ensures y.url != x.url {
        UrlsStay(tail, url, id, y);
      }
      Joined(rest, after);
      forall u, i
        ensures Has(rest + after, u, i) <==> Has(events, u, i) && !(i == id && (url.None? || url.value == u))
      {
        HasJoined([e], tail, u, i);
        HasJoined(rest, after, u, i);
        HasRest(e, url, id, u, i);
      }
      UnregisteredCons(events, url, id);
    }
  }

  lemma UnregisteredCons(events: seq<Event>, url: Option<Url>, id: uint32)
    requires events != []
    ensures Unregistered(events, url, id) == Rest(events[0], url, id) + Unregistered(events[1..], url, id)
  {}

  /** The first event, apart from the others. */
  lemma FirstApart(events: seq<Event>)
    requires WellFormed(events) && events != []
    ensures
      var e, tail := events[0], events[1..];
      && events == [e] + tail && WellFormed(tail) && (NoEmpty(events) ==> e.subscribers != [] && NoEmpty(tail))
      && e.url != [] && Distinct(e.subscribers) && forall x <- tail :: x.url != e.url
  {
    assert events[0] in events && forall x <- events[1..] :: x in events;
  }

  lemma RestFits(e: Event, url: Option<Url>, id: uint32)
    requires e.url != [] && Distinct(e.subscribers)
    ensures |Rest(e, url, id)| <= 1 && (e.subscribers != [] ==> NoEmpty(Rest(e, url, id)))
    ensures forall x <- Rest(e, url, id) :: x.url == e.url && x.url != [] && Distinct(x.subscribers)
  {
    WithoutDistinct(e.subscribers, id);
  }

  lemma HasJoined(xs: seq<Event>, ys: seq<Event>, u: Url, i: uint32)
    ensures Has(xs + ys, u, i) <==> Has(xs, u, i) || Has(ys, u, i)
  {
    assert forall x :: x in xs + ys <==> x in xs || x in ys;
  }

  lemma HasRest(e: Event, url: Option<Url>, id: uint32, u: Url, i: uint32)
    requires Distinct(e.subscribers)
    ensures Has([e], u, i) <==> e.url == u && i in e.subscribers
    ensures Has(Rest(e, url, id), u, i) <==> Has([e], u, i) && !(i == id && (url.None? || url.value == u))
  {
    WithoutDistinct(e.subscribers, id);
    assert e in [e];
    var rest := Rest(e, url, id);
    if rest != [] { assert rest[0] in rest; }
  }

  lemma Joined(rest: seq<Event>, after: seq<Event>)
    requires |rest| <= 1 && WellFormed(after) && (forall e <- rest :: e.url != [] && Distinct(e.subscribers))
    requires forall e, x :: e in rest && x in after ==> x.url != e.url
    ensures WellFormed(rest + after)
    ensures NoEmpty(rest) && NoEmpty(after) ==> NoEmpty(rest + after)
  {
    var all := rest + after;
    forall i, j | 0 <= i < j < |all| ensures all[i].url != all[j].url {
      if i < |rest| { assert all[i] in rest && all[j] in after; }
    }
  }

  /** A URL is registered exactly while somebody is subscribed to it, as long as no event is left empty. */
  lemma RegisteredWhen(events: seq<Event>, url: Url)
    requires WellFormed(events)
    ensures IsRegistered(events, url) <==>
      (exists id :: Has(events, url, id)) || exists e :: e in events && e.url == url && e.subscribers == []
    ensures NoEmpty(events) ==> (IsRegistered(events, url) <==> exists id :: Has(events, url, id))
  {
    var i := Find(events, url);
    if i < |events| {
      assert events[i] in events;
      if events[i].subscribers != [] {
        assert events[i].subscribers[0] in events[i].subscribers;
        assert Has(events, url, events[i].subscribers[0]);
      }
    }
  }

  /** An event is left empty exactly when it is new and its first subscriber cannot be allocated. */
  lemma EmptyWhen(events: seq<Event>, url: Url, id: uint32, eventOk: bool, subscriberOk: bool)
    requires WellFormed(events) && NoEmpty(events)
    ensures NoEmpty(Registered(events, url, id, eventOk, subscriberOk).0) <==>
      !(url != [] && !IsRegistered(events, url) && eventOk && !subscriberOk)
  {
    var after := Registered(events, url, id, eventOk, subscriberOk).0;
    var i := Find(events, url);
    if url != [] && i == |events| && eventOk {
      assert after[0] in after;
      assert forall x :: x in after <==> x == after[0] || x in events;
    } else if url != [] && i < |events| {
      forall x | x in after ensures x.subscribers != [] {
        assert events[i] in events;
        var k :| 0 <= k < |after| && after[k] == x;
      }
    }
  }

  /** When registering succeeds. */
  lemma RegisterSucceedsWhen(events: seq<Event>, url: Url, id: uint32, eventOk: bool, subscriberOk: bool)
    requires WellFormed(events)
    ensures Registered(events, url, id, eventOk, subscriberOk).1 <==>
      url != [] && (Has(events, url, id) || (subscriberOk && (eventOk || exists e <- events :: e.url == url)))
  {
    HasAt(events, url, id);
    var i := Find(events, url);
    if i < |events| { assert events[i] in events; }
  }

  /** A new subscriber is the first to get an event, and the order of the others stays, for this URL and any other. */
  lemma RegisterOrder(events: seq<Event>, url: Url, id: uint32, eventOk: bool, subscriberOk: bool, url': Url)
    ensures
      var (after, ok) := Registered(events, url, id, eventOk, subscriberOk);
      var before := Published(events, url');
      Published(after, url') == if ok && url' == url && id !in before then [id] + before else before
  {
    var i := Find(events, url);
    if url != [] {
      if i == |events| {
        if eventOk {
          FindInFront(events, Event(url, if subscriberOk then [id] else []), url');
          assert [id] + [] == [id];
        }
      } else if id in events[i].subscribers || subscriberOk {
        FindReplaced(events, i, Subscribed(events[i], id), url');
      }
    }
  }

  lemma FindInFront(events: seq<Event>, e: Event, url: Url)
    ensures Find([e] + events, url) == if e.url == url then 0 else 1 + Find(events, url)
  {
    assert ([e] + events)[1..] == events;
  }

  lemma {:induction false} FindReplaced(events: seq<Event>, i: nat, e: Event, url: Url)
    requires i < |events| && e.url == events[i].url
    ensures Find(events[i := e], url) == Find(events, url)
  {
    if i > 0 {
      assert events[i := e][1..] == events[1..][i - 1 := e];
      FindReplaced(events[1..], i - 1, e, url);
    } else {
      assert events[0 := e][1..] == events[1..];
    }
  }

  /** A client that goes leaves the others in their order, and its other URLs alone. */
  lemma UnregisterOrder(events: seq<Event>, url: Option<Url>, id: uint32, url': Url)
    requires WellFormed(events)
    ensures
      var before, after := Published(events, url'), Published(Unregistered(events, url, id), url');
      if id in before && (url == None || url == Some(url')) then
        exists k: nat :: k < |before| && before[k] == id && after == before[..k] + before[k + 1..]
      else after == before
  {
    PublishedWithout(events, url, id, url');
    var k := WithoutSplits(Published(events, url'), id);
    hide WellFormed;
    hide Published;
    hide Unregistered;
  }

  lemma {:induction false} PublishedWithout(events: seq<Event>, url: Option<Url>, id: uint32, url': Url)
    requires WellFormed(events)
    ensures
      var before, after := Published(events, url'), Published(Unregistered(events, url, id), url');
      after == if url == None || url == Some(url') then Without(before, id) else before
    decreases |events|
  {
    hide WellFormed;
    hide Published;
    hide Unregistered;
    if events == [] {
      NothingPublished(url, id, url');
    } else {
      var e, tail := events[0], events[1..];
      FirstApart(events);
      PublishedFirst(e, tail, url');
      UnregisteredCons(events, url, id);
      PublishedWithout(tail, url, id, url');
      var rest, after := Rest(e, url, id), Unregistered(tail, url, id);
      if rest == [] {
        assert rest + after == after;
      } else {
        assert rest + after == [rest[0]] + after;
        PublishedFirst(rest[0], after, url');
      }
      NotPublished(tail, e.url);
    }
  }

  lemma NothingPublished(url: Option<Url>, id: uint32, url': Url)
    ensures Published([], url') == [] && Unregistered([], url, id) == []
  {}

  lemma PublishedFirst(e: Event, events: seq<Event>, url: Url)
    ensures Published([e] + events, url) == if e.url == url then e.subscribers else Published(events, url)
  {
    FindInFront(events, e, url);
  }

  lemma {:induction false} NotPublished(events: seq<Event>, url: Url)
    requires forall x <- events :: x.url != url
    ensures Find(events, url) == |events| && Published(events, url) == []
  {
    if events != [] { NotPublished(events[1..], url); }
  }

  lemma {:induction false} WithoutSplits(ids: seq<uint32>, id: uint32) returns (k: nat)
    ensures if id in ids then k < |ids| && ids[k] == id && Without(ids, id) == ids[..k] + ids[k + 1..]
            else Without(ids, id) == ids
  {
    k := 0;
    if ids != [] && ids[0] != id {
      var tail := ids[1..];
      assert ids == [ids[0]] + tail;
      var i := WithoutSplits(tail, id);
      k := i + 1;
      if id in tail { assert [ids[0]] + (tail[..i] + tail[i + 1..]) == ids[..k] + ids[k + 1..]; }
    } else if ids != [] {
      assert ids[..0] + ids[1..] == ids[1..];
    }
  }

  /** Each subscriber gets a published event once, and nobody else does. */
  lemma PublishReaches(events: seq<Event>, url: Url, id: uint32)
    requires WellFormed(events)
    ensures multiset(Published(events, url))[id] == if Has(events, url, id) then 1 else 0
  {
    HasAt(events, url, id);
    var i := Find(events, url);
    if i < |events| {
      assert events[i] in events;
      OnceEach(events[i].subscribers, id);
    }
  }

  lemma {:induction false} OnceEach(ids: seq<uint32>, id: uint32)
    requires Distinct(ids)
    ensures multiset(ids)[id] == if id in ids then 1 else 0
  {
    if ids != [] {
      var tail := ids[1..];
      assert ids == [ids[0]] + tail && Distinct(tail);
      OnceEach(tail, id);
      forall k | 0 <= k < |tail| ensures tail[k] != ids[0] {
        assert tail[k] == ids[k + 1];
      }
    }
  }

  // ---- Runs ----

  datatype Operation = Register(url: Url, id: uint32) | Unregister(url: Url, id: uint32) | UnregisterAll(id: uint32)

  function After(events: seq<Event>, op: Operation): seq<Event> {
    match op
    case Register(url, id) => Registered(events, url, id, true, true).0
    case Unregister(url, id) => Unregistered(events, Some(url), id)
    case UnregisterAll(id) => Unregistered(events, None, id)
  }

  function Run(ops: seq<Operation>): seq<Event> {
    if ops == [] then [] else After(Run(ops[..|ops| - 1]), ops[|ops| - 1])
  }

  /** The subscriptions after some operations, as a set would have them. */
  predicate Expected(ops: seq<Operation>, url: Url, id: uint32) {
    ops != [] &&
    match ops[|ops| - 1]
    case Register(u, i) => (u != [] && u == url && i == id) || Expected(ops[..|ops| - 1], url, id)
    case Unregister(u, i) => !(u == url && i == id) && Expected(ops[..|ops| - 1], url, id)
    case UnregisterAll(i) => i != id && Expected(ops[..|ops| - 1], url, id)
  }

  /**
   * Over every run with successful allocations the lists are in order, hold no empty event, and stand for
   * exactly the set of subscriptions made and not withdrawn.
   */
  lemma {:induction false} RunRefinesSet(ops: seq<Operation>)
    ensures WellFormed(Run(ops)) && NoEmpty(Run(ops))
    ensures forall url, id :: Has(Run(ops), url, id) <==> Expected(ops, url, id)
    decreases |ops|
  {
    if ops != [] {
      var before, op := ops[..|ops| - 1], ops[|ops| - 1];
      var events := Run(before);
      RunRefinesSet(before);
      match op
      case Register(u, i) =>
        EmptyWhen(events, u, i, true, true);
        RegisterAdds(events, u, i, true, true, u, i);
        forall url, id ensures Has(Run(ops), url, id) <==> Expected(ops, url, id) {
          RegisterAdds(events, u, i, true, true, url, id);
        }
      case Unregister(u, i) =>
        UnregisterRemoves(events, Some(u), i);
      case UnregisterAll(i) =>
        UnregisterRemoves(events, None, i);
    }
  }

  ghost predicate SomebodyExpected(ops: seq<Operation>, url: Url) {
    exists id: uint32 :: Expected(ops, url, id)
  }

  /** A URL is registered after a run exactly if somebody subscribed to it and did not withdraw. */
  lemma RunRegistered(ops: seq<Operation>, url: Url)
    ensures IsRegistered(Run(ops), url) <==> SomebodyExpected(ops, url)
  {
    var events := Run(ops);
    RunRefinesSet(ops);
    RegisteredWhen(events, url);
    if id: uint32 :| Has(events, url, id) {
      assert Expected(ops, url, id);
    } else {
      assert forall id: uint32 :: Expected(ops, url, id) ==> Has(events, url, id);
    }
  }
}
