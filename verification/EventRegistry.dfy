/** The event registry as it lies in memory: a linked list of events, each with a linked list of subscribers. */
module EventRegistries {
  import opened Words
  import opened EventLists

  class Subscriber {
    var next: Subscriber?
    const id: uint32
    /** The event whose list the node is in. */
    ghost const owner: EventReg

    constructor (id: uint32, next: Subscriber?, ghost owner: EventReg)
      ensures this.id == id && this.next == next && this.owner == owner
    {
      this.id, this.next, this.owner := id, next, owner;
    }
  }

  /** Entry k of a chain, or its end. */
  ghost function At<T>(s: seq<T>, k: nat): Option<T> {
    if k < |s| then Some(s[k]) else None
  }

  ghost predicate Follows<T>(was: seq<T>, now: seq<T>, i: nat, k: nat)
    requires i < |was| && |now| == |was| - 1 && k < |now|
  {
    now[k] == was[if k < i then k else k + 1] && At(now, k + 1) == At(was, if k + 1 < i then k + 1 else k + 2)
  }

  ghost function Cut<T>(s: seq<T>, i: nat): (r: seq<T>)
    requires i < |s|
    ensures |r| == |s| - 1
  {
    s[..i] + s[i + 1..]
  }

  lemma CutIs<T>(now: seq<T>, was: seq<T>, i: nat)
    requires i < |was| && |now| == |was| - 1
    requires forall k :: 0 <= k < |now| ==> now[k] == was[if k < i then k else k + 1]
    ensures now == was[..i] + was[i + 1..]
  {}

  /** A chain without entry i. */
  lemma Removed<T>(was: seq<T>, i: nat)
    requires i < |was| && Distinct(was)
    ensures
      var now := was[..i] + was[i + 1..];
      && Distinct(now) && (forall n <- now :: n in was) && was[i] !in now
      && At(now, 0) == (if i == 0 then At(was, 1) else At(was, 0))
      && forall k :: 0 <= k < |now| ==> Follows(was, now, i, k)
  {
    var now := was[..i] + was[i + 1..];
    forall k | 0 <= k < |now| ensures Follows(was, now, i, k) {}
  }

  lemma DistinctCons<T>(x: T, xs: seq<T>)
    requires Distinct(xs) && x !in xs
    ensures Distinct([x] + xs)
  {}

  /** Node k of the list of subscribers, or null. */
  ghost function NodeAt(nodes: seq<Subscriber>, k: nat): Subscriber? {
    match At(nodes, k)
    case None => null
    case Some(n) => n
  }

  ghost function IdsOf(nodes: seq<Subscriber>): (ids: seq<uint32>)
    ensures |ids| == |nodes|
  {
    seq<uint32>(|nodes|, k requires 0 <= k < |nodes| => nodes[k].id)
  }

  lemma {:induction false} WithoutAt(ids: seq<uint32>, id: uint32, k: nat)
    requires k <= |ids| && (forall j :: 0 <= j < k ==> ids[j] != id) && (k < |ids| ==> ids[k] == id)
    ensures Without(ids, id) == if k < |ids| then Cut(ids, k) else ids
  {
    if k > 0 {
      assert [ids[0]] + ids[1..] == ids;
      WithoutAt(ids[1..], id, k - 1);
      if k < |ids| { CutTail(ids, k); }
    } else if ids != [] {
      assert [] + ids[1..] == ids[1..];
    }
    hide Cut;
  }

  lemma CutTail<T>(s: seq<T>, i: nat)
    requires 0 < i < |s|
    ensures Cut(s, i) == [s[0]] + Cut(s[1..], i - 1)
  {}

  lemma IdsCons(s: Subscriber, nodes: seq<Subscriber>)
    ensures IdsOf([s] + nodes) == [s.id] + IdsOf(nodes)
  {}

  lemma RemovedIds(was: seq<Subscriber>, i: nat)
    requires i < |was|
    ensures IdsOf(was[..i] + was[i + 1..]) == IdsOf(was)[..i] + IdsOf(was)[i + 1..]
  {
    var now, ids := was[..i] + was[i + 1..], IdsOf(was)[..i] + IdsOf(was)[i + 1..];
    forall k: nat | k < |now| ensures IdsOf(now)[k] == ids[k] {}
  }

  class EventReg {
    var next: EventReg?
    const url: Url
    var subscribers: Subscriber?
    ghost var nodes: seq<Subscriber>

    constructor (url: Url, next: EventReg?)
      ensures this.url == url && this.next == next && nodes == [] && Chained()
    {
      this.url, this.next := url, next;
      subscribers, nodes := null, [];
    }

    /** The nodes are the list from subscribers on. */
    ghost predicate Chained()
      reads this, nodes
    {
      && subscribers == NodeAt(nodes, 0) && Distinct(nodes) && (forall n <- nodes :: n.owner == this)
      && forall k :: 0 <= k < |nodes| ==> nodes[k].next == NodeAt(nodes, k + 1)
    }

    ghost function Cells(): set<object>
      reads this
    {
      set n | n in nodes :: n as object
    }

    ghost function Ids(): seq<uint32>
      reads this
    {
      IdsOf(nodes)
    }

    ghost function Value(): Event
      reads this
    {
      Event(url, Ids())
    }

    /** The walk along the list, to the first node with the id and the one in front of it. */
    method Locate(id: uint32) returns (c: Subscriber?, prev: Subscriber?, ghost i: nat)
      requires Chained()
      ensures i <= |nodes| && c == NodeAt(nodes, i) && prev == if i == 0 then null else nodes[i - 1]
      ensures c != null <==> id in Ids()
      ensures Without(Ids(), id) == if i < |nodes| then Cut(Ids(), i) else Ids()
    {
      c, prev, i := subscribers, null, 0;
      while c != null
        invariant i <= |nodes| && c == NodeAt(nodes, i) && prev == if i == 0 then null else nodes[i - 1]
        invariant forall k :: 0 <= k < i ==> nodes[k].id != id
        decreases |nodes| - i
      {
        if c.id == id { break; }
        prev, c := c, c.next;
        i := i + 1;
      }
      WithoutAt(Ids(), id, i);
      if i < |nodes| { assert Ids()[i] == id; }
    }

    /** find_subscriber */
    method FindSubscriber(id: uint32, remove: bool) returns (found: bool)
      requires Chained()
      modifies if remove then {this} + Cells() else {}
      ensures Chained() && (found <==> id in old(Ids())) && next == old(next)
      ensures subscribers == null <==> Ids() == []
      ensures Ids() == if remove then Without(old(Ids()), id) else old(Ids())
      ensures forall n <- nodes :: n in old(nodes)
    {
      var c, prev, i := Locate(id);
      NoneLeft();
      if c == null { return false; }
      assert c == nodes[i] && (prev != null ==> prev in nodes);
      hide Chained;
      hide IdsOf;
      hide Without;
      hide Cut;
      hide NodeAt;
      if remove {
        Unlink(prev, c.next, i);
        NoneLeft();
      }
      found := true;
    }

    lemma NoneLeft()
      requires Chained()
      ensures subscribers == null <==> Ids() == []
    {}

    /** find_subscriber, removing nothing. */
    method Knows(id: uint32) returns (found: bool)
      requires Chained()
      ensures found <==> id in Ids()
    {
      found := FindSubscriber(id, false);
    }

    /** find_subscriber, removing the node it finds. */
    method Forget(id: uint32)
      requires Chained()
      modifies this, nodes
      ensures Chained() && next == old(next) && (subscribers == null <==> Value().subscribers == [])
      ensures Value() == Event(url, Without(old(Value()).subscribers, id)) && forall n <- nodes :: n in old(nodes)
    {
      var found := FindSubscriber(id, true);
    }

    /** The loop over the subscribers: each is handed the event. */
    method HandOut() returns (ids: seq<uint32>)
      requires Chained()
      ensures ids == Ids()
    {
      ids := [];
      var c := subscribers;
      ghost var k := 0;
      while c != null
        invariant k <= |nodes| && c == NodeAt(nodes, k) && ids == Ids()[..k]
        decreases |nodes| - k
      {
        ids := ids + [c.id];
        c := c.next;
        k := k + 1;
      }
    }

    /** Node i is taken out; prev and next are its neighbours. */
    method Unlink(prev: Subscriber?, next: Subscriber?, ghost i: nat)
      requires Chained() && i < |nodes| && next == nodes[i].next
      requires prev == if i == 0 then null else nodes[i - 1]
      modifies this`subscribers, this`nodes, prev
      ensures Chained() && nodes == Cut(old(nodes), i) && Ids() == Cut(old(Ids()), i)
      ensures forall n <- nodes :: n in old(nodes)
    {
      assert prev != null ==> prev in nodes && prev.owner == this;
      RemovedIds(nodes, i);
      hide Chained;
      hide IdsOf;
      if prev != null { prev.next := next; } else { subscribers := next; }
      nodes := nodes[..i] + nodes[i + 1..];
      NodeOut(i);
    }

    /** Node i has been taken out, and the link to it has been set to the next one. */
    twostate lemma NodeOut(i: nat)
      requires old(Chained()) && i < |old(nodes)| && nodes == old(nodes)[..i] + old(nodes)[i + 1..]
      requires subscribers == if i == 0 then old(nodes[i].next) else old(subscribers)
      requires forall n <- old(nodes) ::
        n.next == if i > 0 && n == old(nodes[i - 1]) then old(nodes[i].next) else old(n.next)
      ensures Chained()
    {
      var was := old(nodes);
      Removed(was, i);
      forall k | 0 <= k < |nodes| ensures nodes[k].next == NodeAt(nodes, k + 1) {
        var j := if k < i then k else k + 1;
        assert Follows(was, nodes, i, k) && was[j] in was;
        assert i > 0 ==> (was[j] == was[i - 1] <==> j == i - 1);
      }
    }

    /** A new subscriber in front of the others. */
    method Add(id: uint32)
      requires Chained()
      modifies this`subscribers, this`nodes
      ensures Chained() && Ids() == [id] + old(Ids())
      ensures |nodes| > 0 && fresh(nodes[0]) && nodes[1..] == old(nodes)
    {
      hide Chained;
      hide IdsOf;
      var s := new Subscriber(id, subscribers, this);
      subscribers, nodes := s, [s] + nodes;
      NodeInFront(s);
    }

    /** A new node has been put in front of the others. */
    twostate lemma NodeInFront(new s: Subscriber)
      requires old(Chained()) && nodes == [s] + old(nodes) && subscribers == s
      requires s.next == old(subscribers) && s.owner == this && s !in old(nodes)
      requires forall n <- old(nodes) :: n.next == old(n.next)
      ensures Chained() && Ids() == [s.id] + old(Ids())
    {
      var was := old(nodes);
      DistinctCons(s, was);
      IdsCons(s, was);
      hide Distinct;
      hide IdsOf;
      forall k | 0 <= k < |nodes| ensures nodes[k].next == NodeAt(nodes, k + 1) {
        if k > 0 { assert nodes[k] == was[k - 1] && was[k - 1] in was; }
      }
    }
  }

  /** Event k of the list of events, or null. */
  ghost function RegAt(regs: seq<EventReg>, k: nat): EventReg? {
    match At(regs, k)
    case None => null
    case Some(r) => r
  }

  ghost function ValueOf(r: EventReg): Event
    reads r
  {
    r.Value()
  }

  ghost function EventsOf(regs: seq<EventReg>): (events: seq<Event>)
    reads regs
    ensures |events| == |regs| && forall k :: 0 <= k < |regs| ==> events[k] == ValueOf(regs[k])
  {
    if regs == [] then [] else [ValueOf(regs[0])] + EventsOf(regs[1..])
  }

  /** What the list will be, with the events in front of event i done. */
  ghost function Outlook(events: seq<Event>, i: nat, url: Option<Url>, id: uint32): seq<Event>
    requires i <= |events|
  {
    events[..i] + Unregistered(events[i..], url, id)
  }

  lemma OutlookEnds(events: seq<Event>, url: Option<Url>, id: uint32)
    ensures Outlook(events, 0, url, id) == Unregistered(events, url, id)
    ensures Outlook(events, |events|, url, id) == events
  {
    assert events[0..] == events && events[..|events|] == events && events[|events|..] == [];
  }

  /** Event i done: what is left of it stands in front of j. */
  lemma OutlookKept(before: seq<Event>, i: nat, after: seq<Event>, j: nat, url: Option<Url>, id: uint32)
    requires i < |before| && j <= |after|
    requires after[..j] == before[..i] + Rest(before[i], url, id) && after[j..] == before[i + 1..]
    ensures Outlook(after, j, url, id) == Outlook(before, i, url, id)
  {
    assert before[i..][1..] == before[i + 1..];
  }

  /** Event i, which matches, without the client: gone, or with the clients that are left. */
  lemma OutlookLeft(events: seq<Event>, i: nat, url: Option<Url>, id: uint32)
    requires i < |events| && Matches(url, events[i])
    ensures
      var ids := Without(events[i].subscribers, id);
      var after := events[i := Event(events[i].url, ids)];
      if ids == [] then Outlook(Cut(after, i), i, url, id) == Outlook(events, i, url, id)
      else Outlook(after, i + 1, url, id) == Outlook(events, i, url, id)
  {
    var ids := Without(events[i].subscribers, id);
    var after := events[i := Event(events[i].url, ids)];
    if ids == [] {
      var gone := after[..i] + after[i + 1..];
      assert gone[..i] == events[..i] + [] && gone[i..] == events[i + 1..];
      OutlookKept(events, i, gone, i, url, id);
    } else {
      assert after[..i + 1] == events[..i] + [after[i]] && after[i + 1..] == events[i + 1..];
      OutlookKept(events, i, after, i + 1, url, id);
    }
  }

  /** Event i, which does not match, is passed over. */
  lemma OutlookPassed(events: seq<Event>, i: nat, url: Option<Url>, id: uint32)
    requires i < |events| && !Matches(url, events[i])
    ensures Outlook(events, i + 1, url, id) == Outlook(events, i, url, id)
  {
    assert events[..i + 1] == events[..i] + [events[i]];
    OutlookKept(events, i, events, i + 1, url, id);
  }

  lemma NewEventSubscribed(events: seq<Event>, url: Url, id: uint32)
    ensures ([Event(url, [])] + events)[0 := Subscribed(Event(url, []), id)] == [Event(url, [id])] + events
  {
    var none: seq<uint32>, one := [], [id];
    assert one + none == one;
  }

  lemma SameAgain(events: seq<Event>, i: nat)
    requires i < |events|
    ensures events[i := events[i]] == events
  {}

  class Registry {
    var first: EventReg?
    ghost var regs: seq<EventReg>
    /** Supersets of what the lists consist of. */
    ghost var owned: set<EventReg>
    ghost var nodes: set<Subscriber>

    ghost predicate Valid()
      reads this, regs, nodes
    {
      && first == RegAt(regs, 0) && Distinct(regs)
      && (forall r <- regs :: r in owned && forall n <- r.nodes :: n in nodes)
      && (forall k :: 0 <= k < |regs| ==> regs[k].next == RegAt(regs, k + 1))
      && forall r <- regs :: r.Chained()
    }

    ghost function Events(): seq<Event>
      reads this, regs
    {
      EventsOf(regs)
    }

    constructor ()
      ensures Valid() && Events() == []
    {
      first, regs, owned, nodes := null, [], {}, {};
    }

    /** The search that registering, publishing and asking share. */
    method Search(url: Url) returns (current: EventReg?, ghost i: nat)
      requires Valid()
      ensures i == Find(Events(), url) && current == RegAt(regs, i)
    {
      current, i := first, 0;
      while current != null
        invariant i <= |regs| && current == RegAt(regs, i)
        invariant forall k :: 0 <= k < i ==> regs[k].url != url
        decreases |regs| - i
      {
        if current.url == url { break; }
        current := current.next;
        i := i + 1;
      }
      FindIs(Events(), url, i);
    }

    /** event_is_registered */
    method EventIsRegistered(url: Url) returns (found: bool)
      requires Valid()
      ensures found <==> IsRegistered(Events(), url)
    {
      var current, i := Search(url);
      found := current != null;
    }

    /** am_publish_event: the clients the event is handed to, one after the other. */
    method Publish(url: Url) returns (ids: seq<uint32>)
      requires Valid()
      ensures ids == Published(Events(), url)
    {
      ids := [];
      var current, i := Search(url);
      if current == null { return; }
      assert current in regs && current.Chained() && Events()[i] == current.Value();
      hide Valid;
      hide EventsOf;
      ids := current.HandOut();
    }

    /** am_register_event; the flags say whether the event and the subscriber can be allocated. */
    method Register(url: Url, id: uint32, eventOk: bool, subscriberOk: bool) returns (ok: bool)
      requires Valid()
      modifies this, regs
      ensures Valid()
      ensures (Events(), ok) == Registered(old(Events()), url, id, eventOk, subscriberOk)
    {
      hide Valid;
      hide EventsOf;
      if url == [] { return false; }
      var current, i := Search(url);
      ghost var before := Events();
      if current != null {
        ok := Subscribe(current, i, id, subscriberOk);
        return;
      }
      if !eventOk { return false; }
      current := AddEvent(url);
      ok := Subscribe(current, 0, id, subscriberOk);
      NewEventSubscribed(before, url, id);
    }

    /** The second half of registering: the subscriber, unless it is there already. */
    method Subscribe(current: EventReg, ghost i: nat, id: uint32, subscriberOk: bool) returns (ok: bool)
      requires Valid() && i < |regs| && current == regs[i]
      modifies this, current
      ensures first == old(first) && owned == old(owned)
      ensures Valid() && regs == old(regs)
      ensures ok <==> id in old(Events())[i].subscribers || subscriberOk
      ensures Events() == if ok then old(Events())[i := Subscribed(old(Events())[i], id)] else old(Events())
    {
      assert current in regs && current.Chained() && Events()[i] == current.Value();
      hide Valid;
      hide EventsOf;
      SameAgain(Events(), i);
      var found := current.Knows(id);
      if found { return true; }
      if !subscriberOk { return false; }
      AddTo(current, i, id);
      ok := true;
    }

    method AddTo(current: EventReg, ghost i: nat, id: uint32)
      requires Valid() && i < |regs| && current == regs[i]
      modifies this, current
      ensures first == old(first) && owned == old(owned)
      ensures Valid() && regs == old(regs) && current.Ids() == [id] + old(current.Ids())
      ensures Events() == old(Events())[i := current.Value()]
    {
      assert current in regs && current.Chained();
      current.Add(id);
      nodes := nodes + {current.nodes[0]};
      forall n | n in current.nodes ensures n in nodes {
        assert n == current.nodes[0] || n in current.nodes[1..];
      }
      hide Distinct;
      hide EventsOf;
      OthersStand(i);
    }

    /** An event whose own list has not changed. */
    twostate lemma StillStands(r: EventReg)
      requires old(r.Chained()) && r.subscribers == old(r.subscribers) && r.nodes == old(r.nodes)
      requires forall n <- r.nodes :: unchanged(n)
      ensures r.Chained() && r.Value() == old(r.Value())
    {
      forall j | 0 <= j < |r.nodes| ensures r.nodes[j].next == NodeAt(r.nodes, j + 1) {
        assert r.nodes[j] in r.nodes && unchanged(r.nodes[j]);
      }
    }

    /** Changing event i and its nodes alone leaves the others as they were. */
    twostate lemma OthersStand(i: nat)
      requires old(Valid()) && regs == old(regs) && first == old(first) && i < |regs|
      requires old(nodes) <= nodes && old(owned) <= owned
      requires forall r <- regs :: r != regs[i] ==> unchanged(r)
      requires forall n <- old(nodes) :: n !in old(regs[i].nodes) ==> unchanged(n)
      requires regs[i].Chained() && regs[i].next == old(regs[i].next) && forall n <- regs[i].nodes :: n in nodes
      ensures Valid() && Events() == old(Events())[i := regs[i].Value()]
    {
      forall r | r in regs
        ensures r.Chained() && r.next == old(r.next) && (r != regs[i] ==> r.Value() == old(r.Value()))
        ensures r in owned && forall n <- r.nodes :: n in nodes
      {
        if r != regs[i] {
          assert old(regs[i].Chained() && r.Chained());
          StillStands(r);
        }
      }
      hide EventReg.Chained;
      OneEventChanged(i);
    }

    twostate lemma OneEventChanged(i: nat)
      requires i < |regs| && regs == old(regs) && Distinct(regs)
      requires forall r <- regs :: r != regs[i] ==> r.Value() == old(r.Value())
      ensures Events() == old(Events())[i := regs[i].Value()]
    {
      var now, expected := Events(), old(Events())[i := regs[i].Value()];
      forall k | 0 <= k < |regs| ensures now[k] == expected[k] {
        assert regs[k] in regs;
      }
    }

    /** Event i has been taken out of the list, and only links have changed. */
    twostate lemma TakenOut(i: nat)
      requires old(Valid()) && i < |old(regs)| && regs == old(regs)[..i] + old(regs)[i + 1..]
      requires nodes == old(nodes) && owned == old(owned)
      requires first == if i == 0 then old(regs[i].next) else old(first)
      requires forall r <- regs :: r.subscribers == old(r.subscribers) && r.nodes == old(r.nodes)
      requires forall r <- regs :: forall n <- r.nodes :: unchanged(n)
      requires forall k :: 0 <= k < |regs| ==>
        var r := regs[k]; r.next == if k + 1 == i then old(regs[i].next) else old(r.next)
      ensures Valid() && Events() == old(Events())[..i] + old(Events())[i + 1..]
    {
      var was := old(regs);
      Removed(was, i);
      forall r | r in regs
        ensures r in owned && r.Chained() && r.Value() == old(r.Value()) && forall n <- r.nodes :: n in nodes
      {
        assert r in was;
        StillStands(r);
      }
      forall k | 0 <= k < |regs| ensures regs[k].next == RegAt(regs, k + 1) {
        var j := if k < i then k else k + 1;
        assert Follows(was, regs, i, k) && regs[k] == was[j];
        assert old(regs[j].next) == RegAt(was, j + 1) && old(regs[i].next) == RegAt(was, i + 1);
      }
      SameEvents(i);
    }

    twostate lemma SameEvents(i: nat)
      requires i < |old(regs)| && regs == old(regs)[..i] + old(regs)[i + 1..]
      requires forall r <- regs :: r.Value() == old(r.Value())
      ensures Events() == old(Events())[..i] + old(Events())[i + 1..]
    {
      var now, was := Events(), old(Events());
      forall k | 0 <= k < |now| ensures now[k] == was[if k < i then k else k + 1] {
        var j := if k < i then k else k + 1;
        assert regs[k] == old(regs)[j] && regs[k] in regs;
      }
      CutIs(now, was, i);
    }

    /** A new event in front of the others. */
    method AddEvent(url: Url) returns (r: EventReg)
      requires Valid()
      modifies this
      ensures Valid() && fresh(r) && regs == [r] + old(regs) && r.Value() == Event(url, [])
      ensures Events() == [Event(url, [])] + old(Events())
    {
      hide Valid;
      hide EventsOf;
      r := new EventReg(url, first);
      first, regs, owned := r, [r] + regs, owned + {r};
      PutInFront(r);
    }

    /** A new event has been put in front of the others. */
    twostate lemma PutInFront(new r: EventReg)
      requires old(Valid()) && first == r && regs == [r] + old(regs) && r !in old(regs)
      requires nodes == old(nodes) && owned == old(owned) + {r}
      requires r.next == old(first) && r.Chained() && r.nodes == []
      requires forall x <- old(regs) :: unchanged(x)
      requires forall n <- old(nodes) :: unchanged(n)
      ensures Valid() && Events() == [r.Value()] + old(Events())
    {
      AllStand();
      EventsInFront(r);
      hide EventReg.Chained;
      hide EventsOf;
      hide Distinct;
      hide RegAt;
      FirstJoined(r, old(regs));
    }

    lemma FirstJoined(r: EventReg, rest: seq<EventReg>)
      requires first == r && regs == [r] + rest && r !in rest && Distinct(rest)
      requires r in owned && r.Chained() && r.nodes == [] && r.next == RegAt(rest, 0)
      requires forall x <- rest :: x in owned && x.Chained() && forall n <- x.nodes :: n in nodes
      requires forall k :: 0 <= k < |rest| ==> rest[k].next == RegAt(rest, k + 1)
      ensures Valid()
    {
      hide EventReg.Chained;
      DistinctCons(r, rest);
      hide Distinct;
      forall k | 0 <= k < |rest| ensures regs[k + 1] == rest[k] && rest[k].next == RegAt(regs, k + 2) {}
    }

    /** Events whose fields and nodes have not changed. */
    twostate lemma AllStand()
      requires old(Valid()) && forall x <- old(regs) :: unchanged(x)
      requires forall n <- old(nodes) :: unchanged(n)
      ensures forall x <- old(regs) :: x in old(owned) && x.Chained() && forall n <- x.nodes :: n in old(nodes)
    {
      forall x | x in old(regs) ensures x in old(owned) && x.Chained() && forall n <- x.nodes :: n in old(nodes) {
        StillStands(x);
      }
    }

    twostate lemma EventsInFront(new r: EventReg)
      requires regs == [r] + old(regs) && forall x <- old(regs) :: unchanged(x)
      ensures Events() == [r.Value()] + old(Events())
    {
      var was, now, expected := old(regs), Events(), [r.Value()] + old(Events());
      forall k | 0 <= k < |regs| ensures now[k] == expected[k] {
        if k > 0 { assert regs[k] == was[k - 1] && was[k - 1] in was; }
      }
    }

    /** The client's subscription to one event, if there is one. */
    method Drop(current: EventReg, ghost i: nat, id: uint32)
      requires Valid() && i < |regs| && current == regs[i]
      modifies current, nodes
      ensures Valid() && current.next == old(current.next)
      ensures current.subscribers == null <==> Without(old(Events())[i].subscribers, id) == []
      ensures Events() == old(Events())[i := Event(current.url, Without(old(Events())[i].subscribers, id))]
    {
      assert current in regs && current.Chained() && Events()[i] == current.Value();
      hide Valid;
      hide EventsOf;
      hide EventReg.Chained;
      hide Without;
      current.Forget(id);
      OthersStand(i);
    }

    /** Event i is taken out; pre and next are its neighbours. */
    method UnlinkEvent(pre: EventReg?, next: EventReg?, ghost i: nat)
      requires Valid() && i < |regs| && next == regs[i].next && pre == (if i == 0 then null else regs[i - 1])
      modifies this, pre
      ensures owned == old(owned) && nodes == old(nodes)
      ensures Valid() && regs == old(regs)[..i] + old(regs)[i + 1..]
      ensures Events() == old(Events())[..i] + old(Events())[i + 1..]
    {
      assert forall k, j :: 0 <= k < j < |regs| ==> regs[k] != regs[j];
      hide Distinct;
      hide EventsOf;
      if pre != null { pre.next := next; } else { first := next; }
      regs := regs[..i] + regs[i + 1..];
      TakenOut(i);
    }

    /** The walk along the list is at event i, behind pre. */
    ghost predicate Walking(current: EventReg?, pre: EventReg?, i: nat)
      reads this, regs, nodes
    {
      && Valid() && i <= |regs| && current == RegAt(regs, i)
      && pre == if i == 0 then null else regs[i - 1]
    }

    /** What the list will be when the walk is over. */
    ghost function Goal(i: nat, url: Option<Url>, id: uint32): seq<Event>
      reads this, regs
    {
      if i <= |regs| then Outlook(Events(), i, url, id) else []
    }

    lemma WalkEnds(pre: EventReg?, i: nat, url: Option<Url>, id: uint32)
      ensures Goal(0, url, id) == Unregistered(Events(), url, id)
      ensures Walking(null, pre, i) ==> Valid() && Goal(i, url, id) == Events()
    {
      OutlookEnds(Events(), url, id);
    }

    /** The client is taken out of event i, and the event too if nobody is left; next is the one behind it. */
    method Remove(current: EventReg, pre: EventReg?, ghost i: nat, id: uint32) returns (next: EventReg?, gone: bool)
      requires Valid() && i < |regs| && current == regs[i] && pre == (if i == 0 then null else regs[i - 1])
      requires current in owned && (pre != null ==> pre in owned)
      modifies this, owned, nodes
      ensures Valid() && owned == old(owned) && nodes == old(nodes) && next == old(current.next)
      ensures gone <==> Without(old(Events())[i].subscribers, id) == []
      ensures regs == if gone then Cut(old(regs), i) else old(regs)
      ensures
        var after := old(Events())[i := Event(current.url, Without(old(Events())[i].subscribers, id))];
        Events() == if gone then Cut(after, i) else after
    {
      hide Valid;
      hide EventsOf;
      hide Without;
      next := current.next;
      Drop(current, i, id);
      gone := current.subscribers == null;
      if gone { UnlinkEvent(pre, next, i); }
    }

    lemma StandingAt(current: EventReg, pre: EventReg?, i: nat)
      requires Walking(current, pre, i)
      ensures i < |regs| && current == regs[i] && current in owned && (pre != null ==> pre in owned)
      ensures current.next == RegAt(regs, i + 1) && Events()[i].url == current.url
    {
      hide EventReg.Chained;
    }

    /** The client leaves event i, which matches. */
    method LeaveMatching(current: EventReg, pre: EventReg?, ghost i: nat, ghost url: Option<Url>, id: uint32)
      returns (next: EventReg?, last: EventReg?, ghost j: nat)
      requires Walking(current, pre, i) && (url.None? || current.url == url.value)
      modifies this, owned, nodes
      ensures owned == old(owned) && nodes == old(nodes)
      ensures Walking(next, last, j) && |regs| - j == old(|regs|) - i - 1
      ensures Goal(j, url, id) == old(Goal(i, url, id))
    {
      hide Cut;
      hide Distinct;
      hide EventReg.Chained;
      hide Valid;
      hide EventsOf;
      hide Outlook;
      hide Without;
      hide RegAt;
      StandingAt(current, pre, i);
      OutlookLeft(Events(), i, url, id);
      RegsRemoval(regs, i);
      var gone;
      next, gone := Remove(current, pre, i, id);
      if gone { last, j := pre, i; } else { last, j := current, i + 1; }
    }

    /** The client leaves event i if it matches; then the walk is on to the next event. */
    method Leave(current: EventReg, pre: EventReg?, ghost i: nat, url: Option<Url>, id: uint32)
      returns (next: EventReg?, last: EventReg?, ghost j: nat)
      requires Walking(current, pre, i)
      modifies this, owned, nodes
      ensures owned == old(owned) && nodes == old(nodes)
      ensures Walking(next, last, j) && |regs| - j == old(|regs|) - i - 1
      ensures Goal(j, url, id) == old(Goal(i, url, id))
    {
      if url.None? || current.url == url.value {
        next, last, j := LeaveMatching(current, pre, i, url, id);
      } else {
        StandingAt(current, pre, i);
        OutlookPassed(Events(), i, url, id);
        hide Outlook;
        hide EventReg.Chained;
        next, last, j := current.next, current, i + 1;
      }
    }

    /** am_unregister_event; without a URL the client leaves all events. */
    method Unregister(url: Option<Url>, id: uint32) returns (ok: bool)
      requires Valid()
      modifies this, owned, nodes
      ensures Valid() && ok && Events() == Unregistered(old(Events()), url, id)
    {
      var current, pre: EventReg? := first, null;
      ghost var i: nat := 0;
      assert Walking(current, pre, i);
      WalkEnds(pre, i, url, id);
      ghost var goal := Goal(i, url, id);
      hide *;
      while current != null
        invariant Walking(current, pre, i) && Goal(i, url, id) == goal
        invariant nodes == old(nodes) && owned == old(owned)
        decreases |regs| - i
      {
        current, pre, i := Leave(current, pre, i, url, id);
      }
      WalkEnds(pre, i, url, id);
      ok := true;
    }
  }

  lemma Removal<T>(s: seq<T>, i: nat)
    requires i < |s|
    ensures
      var t := s[..i] + s[i + 1..];
      && t[..i] == s[..i] && t[i..] == s[i + 1..] && At(t, i) == At(s, i + 1) && (i > 0 ==> t[i - 1] == s[i - 1])
      && (forall x <- t :: x in s) && s[..i] + [] == s[..i]
  {
    var t := s[..i] + s[i + 1..];
    assert t[..i] == s[..i] && t[i..] == s[i + 1..];
  }

  lemma RegsRemoval(was: seq<EventReg>, i: nat)
    requires i < |was|
    ensures
      var now := Cut(was, i);
      RegAt(now, i) == RegAt(was, i + 1) && (i > 0 ==> now[i - 1] == was[i - 1])
  {
    Removal(was, i);
  }

  lemma {:induction false} FindIs(events: seq<Event>, url: Url, i: nat)
    requires i <= |events| && (forall k :: 0 <= k < i ==> events[k].url != url)
    requires i < |events| ==> events[i].url == url
    ensures Find(events, url) == i
  {
    if i > 0 { FindIs(events[1..], url, i - 1); }
  }
}
