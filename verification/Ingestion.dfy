/** Events on their way from a forwarder to a recipient's database
    (internal/forwarder/ForwardingEventPublisher.go, plugins/recipient/RecipientEndpoint.go). */
module Ingestion {
  import opened Common
  import opened EventStore
  import FileWatching

  datatype RawEvent = RawEvent(raw: string, host: string, source: string, sourceId: string, offset: int)

  /** What the recipient can tell about the time of an event: nothing is configured for its source, the configured
      parser finds a time in its text, or it does not. */
  datatype TimeOf = NoConfig | Time(t: int) | NoTime

  /** Go's duration and time values in milliseconds. */
  const FORWARD_CHUNK_SIZE: nat := 1000
  const RETRY_DELAY := 1000

  /** The event the recipient makes of a raw event, given the timestamp it uses. */
  function Stamp(e: RawEvent, t: int): Event {
    Event(e.raw, e.host, e.source, e.sourceId, t, e.offset)
  }

  /** The timestamp is the one in the text; where the text has none, it is the clock's. */
  predicate IsProcessed(classify: RawEvent -> TimeOf, e: RawEvent, p: Event) {
    match classify(e)
    case NoConfig => false
    case Time(t) => p == Stamp(e, t)
    case NoTime => p == Stamp(e, p.timestamp)
  }

  ghost predicate AllProcessed(classify: RawEvent -> TimeOf, es: seq<RawEvent>, ps: seq<Event>) {
    |ps| == |es| && forall i :: 0 <= i < |es| ==> IsProcessed(classify, es[i], ps[i])
  }

  // ---- Facts about Dedup ----

  lemma InLarger(v: seq<Event>, w: seq<Event>, k: Key)
    requires v <= w && InView(v, k)
    ensures InView(w, k)
  {
    var i :| 0 <= i < |v| && KeyOf(v[i]) == k;
    assert w[i] == v[i];
  }

  lemma {:induction false} DedupHas(v: seq<Event>, es: seq<Event>, i: nat)
    requires i < |es|
    ensures InView(Dedup(v, es), KeyOf(es[i]))
  {
    var n := |es| - 1;
    var before := Dedup(v, es[..n]);
    if i < n {
      DedupHas(v, es[..n], i);
      InLarger(before, Dedup(v, es), KeyOf(es[i]));
    } else if !InView(before, KeyOf(es[n])) {
      assert (before + [es[n]])[|before|] == es[n];
    }
  }

  lemma {:induction false} DedupIgnores(v: seq<Event>, es: seq<Event>)
    requires forall i :: 0 <= i < |es| ==> InView(v, KeyOf(es[i]))
    ensures Dedup(v, es) == v
  {
    if es != [] {
      DedupIgnores(v, es[..|es| - 1]);
    }
  }

  lemma {:induction false} DedupAppend(v: seq<Event>, a: seq<Event>, b: seq<Event>)
    ensures Dedup(v, a + b) == Dedup(Dedup(v, a), b)
  {
    if b == [] {
      assert a + b == a;
    } else {
      var init := b[..|b| - 1];
      assert (a + b)[..|a + b| - 1] == a + init;
      DedupAppend(v, a, init);
    }
  }

  lemma {:induction false} InDedupIff(v: seq<Event>, es: seq<Event>, k: Key)
    ensures InView(Dedup(v, es), k) <==> InView(v, k) || exists i :: 0 <= i < |es| && KeyOf(es[i]) == k
  {
    if es != [] {
      var n := |es| - 1;
      var before := Dedup(v, es[..n]);
      InDedupIff(v, es[..n], k);
      if !InView(before, KeyOf(es[n])) {
        assert (before + [es[n]])[|before|] == es[n];
        if InView(before, k) {
          InLarger(before, before + [es[n]], k);
        }
      }
    }
  }

  lemma SameColumnsIff(v: seq<Event>, es: seq<Event>, e: Event)
    ensures InView(v, KeyOf(e)) || (exists i :: 0 <= i < |es| && KeyOf(es[i]) == KeyOf(e)) <==>
            exists x :: x in v + es && x.host == e.host && x.source == e.source && x.timestamp == e.timestamp &&
              x.offset == e.offset
  {
    if InView(v, KeyOf(e)) {
      var i :| 0 <= i < |v| && KeyOf(v[i]) == KeyOf(e);
      assert v[i] in v + es;
    }
    if i :| 0 <= i < |es| && KeyOf(es[i]) == KeyOf(e) {
      assert es[i] in v + es;
    }
    forall x | x in v + es && KeyOf(x) == KeyOf(e)
      ensures InView(v, KeyOf(e)) || exists i :: 0 <= i < |es| && KeyOf(es[i]) == KeyOf(e)
    {
      if x in v {
        var i :| 0 <= i < |v| && v[i] == x;
      } else {
        var i :| 0 <= i < |es| && es[i] == x;
        assert KeyOf(es[i]) == KeyOf(e);
      }
    }
  }

  /** An event that arrives adds nothing if and only if one with its host, source, timestamp and offset is already
      stored or arrived before it. */
  lemma {:induction false} ArrivalIgnoredIff(v: seq<Event>, es: seq<Event>, e: Event)
    ensures Dedup(v, es + [e]) == Dedup(v, es) <==>
            InView(v, KeyOf(e)) || exists i :: 0 <= i < |es| && KeyOf(es[i]) == KeyOf(e)
    ensures Dedup(v, es + [e]) == Dedup(v, es) <==>
            exists x :: x in v + es && x.host == e.host && x.source == e.source && x.timestamp == e.timestamp &&
              x.offset == e.offset
  {
    SameColumnsIff(v, es, e);
    DedupSnoc(v, es, e);
    InDedupIff(v, es, KeyOf(e));
    assert [e][..0] == [];
  }

  lemma AddedView(s: Store, arrived: seq<Event>, processed: seq<Event>)
    requires Agrees(s) && View(s) == Dedup([], arrived)
    ensures AddAll(s, processed).Some? && Agrees(AddAll(s, processed).value)
    ensures View(AddAll(s, processed).value) == Dedup([], arrived + processed)
  {
    AddAllAgrees(s, processed);
    DedupAppend([], arrived, processed);
  }

  // ---- The recipient ----

  class Recipient {
    const classify: RawEvent -> TimeOf
    const repo: EventRepository
    ghost var arrived: seq<Event>  // everything that was handed to the repository and committed, in arrival order
    ghost var commitLost: bool     // whether a commit has ever failed

    /** The repository inserts one by one, and holds each arrived event once, in the order of first arrival. */
    ghost predicate Valid()
      reads this, repo
    {
      && !repo.trueBatch
      && Agrees(repo.Contents())
      && View(repo.Contents()) == Dedup([], arrived)
    }

    constructor (classify: RawEvent -> TimeOf)
      ensures Valid() && arrived == [] && !commitLost && this.classify == classify && fresh(repo)
    {
      this.classify := classify;
      repo := new EventRepository(false);
      arrived, commitLost := [], false;
    }

    /** The clock. */
    method Now() returns (t: int) {
      t := *;
    }

    method Process(events: seq<RawEvent>) returns (processed: seq<Event>)
      requires forall i :: 0 <= i < |events| ==> !classify(events[i]).NoConfig?
      ensures AllProcessed(classify, events, processed)
      ensures |processed| == |events| && forall i :: 0 <= i < |events| ==>
        && processed[i].raw == events[i].raw && processed[i].host == events[i].host
        && processed[i].source == events[i].source && processed[i].sourceId == events[i].sourceId
        && processed[i].offset == events[i].offset
        && forall t :: classify(events[i]) == Time(t) ==> processed[i].timestamp == t
    {
      processed := [];
      for i := 0 to |events|
        invariant AllProcessed(classify, events[..i], processed)
      {
        var t: int;
        match classify(events[i]) {
          case Time(parsed) => t := parsed;
          case _ => t := Now();
        }
        processed := processed + [Stamp(events[i], t)];
      }
      assert events[..|events|] == events;
    }

    /** The handler. A source without configuration makes it panic before anything is stored; otherwise the whole
        request is stored, or, if the commit fails, reported as stored. */
    method ReceiveEvents(events: seq<RawEvent>, commits: bool) returns (ok: bool)
      requires Valid()
      modifies this, repo
      ensures Valid()
      ensures ok <==> forall i :: 0 <= i < |events| ==> !classify(events[i]).NoConfig?
      ensures commitLost == (old(commitLost) || (ok && !commits))
      ensures !ok || !commits ==> arrived == old(arrived) && repo.Contents() == old(repo.Contents())
      ensures ok && commits ==> old(arrived) <= arrived && AllProcessed(classify, events, arrived[|old(arrived)|..])
    {
      hide Agrees, View, IsAdded, IsInserted, Dedup, AddAll, AddTrueBatch, IsProcessed, AllProcessed;
      for i := 0 to |events|
        invariant forall j :: 0 <= j < i ==> !classify(events[j]).NoConfig?
      {
        if classify(events[i]).NoConfig? {
          return false;
        }
      }
      var processed := Process(events);
      AddedView(repo.Contents(), arrived, processed);
      var added := repo.AddBatch(processed, commits);
      assert added;
      if commits {
        arrived := arrived + processed;
        assert arrived[|old(arrived)|..] == processed;
      } else {
        commitLost := true;
      }
      return true;
    }
  }

  // ---- The forwarder ----

  /** What became of an event that left the buffer. */
  datatype Fate = Acknowledged | Dropped | NotSerializable

  /** What the forwarder sees of a POST. */
  datatype Reply = Success | Failure | CannotSerialize

  function Select<T>(s: seq<T>, indices: seq<nat>): (r: seq<T>)
    requires forall i :: 0 <= i < |indices| ==> indices[i] < |s|
    ensures |r| == |indices|
  {
    seq(|indices|, i requires 0 <= i < |indices| => s[indices[i]])
  }

  function Range(lo: nat, hi: nat): (r: seq<nat>)
    requires lo <= hi
    ensures |r| == hi - lo
    ensures forall i :: 0 <= i < |r| ==> r[i] == lo + i
  {
    seq(hi - lo, i requires 0 <= i < hi - lo => lo + i)
  }

  ghost predicate Timely(classify: RawEvent -> TimeOf, es: seq<RawEvent>) {
    forall i :: 0 <= i < |es| ==> classify(es[i]).Time?
  }

  function StampOwn(classify: RawEvent -> TimeOf, e: RawEvent): Event {
    Stamp(e, match classify(e) case Time(t) => t case _ => 0)
  }

  function StampAll(classify: RawEvent -> TimeOf, es: seq<RawEvent>): (r: seq<Event>)
    ensures |r| == |es|
  {
    seq(|es|, i requires 0 <= i < |es| => StampOwn(classify, es[i]))
  }

  lemma ProcessedIsStamped(classify: RawEvent -> TimeOf, es: seq<RawEvent>, ps: seq<Event>)
    requires AllProcessed(classify, es, ps) && Timely(classify, es)
    ensures ps == StampAll(classify, es)
  {
    forall i | 0 <= i < |es|
      ensures ps[i] == StampAll(classify, es)[i]
    {
      assert IsProcessed(classify, es[i], ps[i]);
    }
  }

  /** What has reached the recipient: `firsts` are the positions, in publish order, of the events that arrived at
      least once, `low..high` the part of the published sequence the last delivery covered. */
  datatype Deliveries = Deliveries(firsts: seq<nat>, low: nat, high: nat)

  ghost predicate DeliveriesValid(d: Deliveries, published: nat) {
    && d.low <= d.high <= published
    && (forall i :: 0 <= i < |d.firsts| ==> d.firsts[i] < d.high)
    && (forall i, j :: 0 <= i < j < |d.firsts| ==> d.firsts[i] < d.firsts[j])
    && (forall i :: d.low <= i < d.high ==> i in d.firsts)
  }

  /** A delivery of positions a..b adds those that are new. */
  function Deliver(d: Deliveries, a: nat, b: nat): Deliveries
    requires a <= b
  {
    var from := NewFrom(d, a, b);
    Deliveries(d.firsts + Range(from, b), a, if d.high > b then d.high else b)
  }

  lemma DeliverValid(d: Deliveries, a: nat, b: nat, published: nat)
    requires DeliveriesValid(d, published) && d.low <= a <= b <= published
    ensures DeliveriesValid(Deliver(d, a, b), published)
    ensures forall i :: a <= i < b ==> i in Deliver(d, a, b).firsts
    ensures d.firsts <= Deliver(d, a, b).firsts
  {
    var from := NewFrom(d, a, b);
    var d' := Deliver(d, a, b);
    forall i: nat | a <= i < d'.high
      ensures i in d'.firsts
    {
      if i < d.high {
        assert i in d.firsts;
      } else {
        assert d'.firsts[|d.firsts| + i - from] == i;
      }
    }
  }

  /** Where the new part of a delivery of a..b starts. */
  function NewFrom(d: Deliveries, a: nat, b: nat): (from: nat)
    requires a <= b
    ensures a <= from <= b
  {
    if d.high < a then a else if d.high > b then b else d.high
  }

  lemma RepeatedIsKnown(classify: RawEvent -> TimeOf, published: seq<RawEvent>, d: Deliveries, a: nat, b: nat)
    requires DeliveriesValid(d, |published|) && d.low <= a <= b <= |published|
    ensures var v := Dedup([], StampAll(classify, Select(published, d.firsts)));
            Dedup(v, StampAll(classify, published[a..NewFrom(d, a, b)])) == v
  {
    var before := StampAll(classify, Select(published, d.firsts));
    var again := StampAll(classify, published[a..NewFrom(d, a, b)]);
    var v := Dedup([], before);
    forall i | 0 <= i < |again|
      ensures InView(v, KeyOf(again[i]))
    {
      assert a + i in d.firsts;
      var j :| 0 <= j < |d.firsts| && d.firsts[j] == a + i;
      assert before[j] == again[i];
      DedupHas([], before, j);
    }
    DedupIgnores(v, again);
  }

  lemma StampAppend(classify: RawEvent -> TimeOf, x: seq<RawEvent>, y: seq<RawEvent>)
    ensures StampAll(classify, x + y) == StampAll(classify, x) + StampAll(classify, y)
  {
  }

  lemma SelectRange<T>(s: seq<T>, indices: seq<nat>, lo: nat, hi: nat)
    requires lo <= hi <= |s| && forall i :: 0 <= i < |indices| ==> indices[i] < |s|
    ensures var all := indices + Range(lo, hi);
            && (forall i :: 0 <= i < |all| ==> all[i] < |s|)
            && Select(s, all) == Select(s, indices) + s[lo..hi]
  {
  }

  /** A delivery, repeated or not, changes the database by its new events only. */
  lemma DeliverView(classify: RawEvent -> TimeOf, published: seq<RawEvent>, d: Deliveries, a: nat, b: nat)
    requires DeliveriesValid(d, |published|) && d.low <= a <= b <= |published|
    ensures var d' := Deliver(d, a, b);
            && DeliveriesValid(d', |published|)
            && Dedup(Dedup([], StampAll(classify, Select(published, d.firsts))), StampAll(classify, published[a..b])) ==
               Dedup([], StampAll(classify, Select(published, d'.firsts)))
  {
    hide Dedup, StampAll, Select;
    DeliverValid(d, a, b, |published|);
    RepeatedIsKnown(classify, published, d, a, b);
    var from := NewFrom(d, a, b);
    var before := StampAll(classify, Select(published, d.firsts));
    assert published[a..b] == published[a..from] + published[from..b];
    StampAppend(classify, published[a..from], published[from..b]);
    SelectRange(published, d.firsts, from, b);
    StampAppend(classify, Select(published, d.firsts), published[from..b]);
    DedupAppend(Dedup([], before), StampAll(classify, published[a..from]), StampAll(classify, published[from..b]));
    DedupAppend([], before, StampAll(classify, published[from..b]));
  }

  lemma DeliverBounds(d: Deliveries, a: nat, b: nat)
    requires a <= b
    ensures Deliver(d, a, b).low == a
    ensures d.firsts <= Deliver(d, a, b).firsts
    ensures forall i :: i in d.firsts ==> i in Deliver(d, a, b).firsts
  {
  }

  /** The same for what has arrived, as the recipient sees it. */
  lemma DeliverArrived(classify: RawEvent -> TimeOf, published: seq<RawEvent>, d: Deliveries, a: nat, b: nat,
                       arrived: seq<Event>, processed: seq<Event>)
    requires DeliveriesValid(d, |published|) && d.low <= a <= b <= |published|
    requires Timely(classify, published)
    requires AllProcessed(classify, published[a..b], processed)
    requires Dedup([], arrived) == Dedup([], StampAll(classify, Select(published, d.firsts)))
    ensures DeliveriesValid(Deliver(d, a, b), |published|)
    ensures Dedup([], arrived + processed) ==
            Dedup([], StampAll(classify, Select(published, Deliver(d, a, b).firsts)))
  {
    hide Dedup, StampAll, Select, Deliver;
    DeliverView(classify, published, d, a, b);
    assert Timely(classify, published[a..b]);
    ProcessedIsStamped(classify, published[a..b], processed);
    DedupAppend([], arrived, processed);
  }

  /** What is left of `total` events behind k full chunks. */
  function LeftAfter(k: nat, total: nat): nat {
    if total < 1000 * k then 0 else total - 1000 * k
  }

  /** Every POST carries 1000 events, or what is left if that is less. */
  ghost predicate SizesOk(posts: seq<PostRecord>, total: nat) {
    forall k :: 0 <= k < |posts| ==>
      posts[k].size == if LeftAfter(k, total) < 1000 then LeftAfter(k, total) else 1000
  }

  lemma NoPosts(total: nat)
    ensures SizesOk([], total) && LeftAfter(0, total) == total
  {
  }

  lemma OneMorePost(posts: seq<PostRecord>, total: nat, post: PostRecord)
    requires SizesOk(posts, total)
    requires var left := LeftAfter(|posts|, total); post.size == if left < 1000 then left else 1000
    ensures SizesOk(posts + [post], total)
    ensures LeftAfter(|posts| + 1, total) == LeftAfter(|posts|, total) - post.size
  {
  }

  /** One flush: whether it failed, how many events it left in the buffer before the excess was dropped and after, how
      many events had left the buffer and how many had been published by then. */
  datatype FlushRecord = FlushRecord(failed: bool, left: nat, kept: nat, from: nat, published: nat)

  /** How many events a POST carried and what came of it. */
  datatype PostRecord = PostRecord(size: nat, reply: Reply)

  /** The fate of one POST: whether its events can be serialized, and whether the request, the reply and the commit
      go through. */
  datatype Link = Link(serializable: bool, requestArrives: bool, replyArrives: bool, commits: bool)

  predicate AllDelivered(posts: seq<PostRecord>) {
    forall i :: 0 <= i < |posts| ==> posts[i].reply.Success?
  }

  /** A flush drops only what exceeds the limit, and only if it has failed. */
  predicate FlushOk(r: FlushRecord, maxBufferedEvents: nat) {
    && r.kept == (if r.left > maxBufferedEvents then maxBufferedEvents else r.left)
    && (!r.failed ==> r.left == 0)
  }

  predicate DroppedIn(r: FlushRecord, i: nat) {
    r.from <= i < r.from + r.left - r.kept
  }

  predicate DroppedBySome(flushes: seq<FlushRecord>, i: nat) {
    exists k :: 0 <= k < |flushes| && DroppedIn(flushes[k], i)
  }

  /** The dropped events are exactly those that the flushes account for. */
  ghost predicate DropsOk(fates: seq<Fate>, flushes: seq<FlushRecord>, maxBufferedEvents: nat) {
    && (forall k :: 0 <= k < |flushes| ==>
          FlushOk(flushes[k], maxBufferedEvents) && flushes[k].from + flushes[k].left - flushes[k].kept <= |fates|)
    && (forall i :: 0 <= i < |fates| ==> (fates[i] == Dropped <==> DroppedBySome(flushes, i)))
  }

  /** Events that leave the buffer in a flush, before and after its excess is dropped. */
  lemma DropsAfterFlush(fates: seq<Fate>, flushes: seq<FlushRecord>, maxBufferedEvents: nat, sent: seq<Fate>,
                        r: FlushRecord)
    requires DropsOk(fates, flushes, maxBufferedEvents)
    requires forall i :: 0 <= i < |sent| ==> sent[i] != Dropped
    requires FlushOk(r, maxBufferedEvents) && r.from == |fates| + |sent|
    ensures DropsOk(fates + sent + seq(r.left - r.kept, _ => Dropped), flushes + [r], maxBufferedEvents)
  {
    var all, more := fates + sent + seq(r.left - r.kept, _ => Dropped), flushes + [r];
    forall i | 0 <= i < |all|
      ensures all[i] == Dropped <==> DroppedBySome(more, i)
    {
      assert DroppedIn(more[|flushes|], i) <==> r.from <= i;
      if DroppedBySome(flushes, i) {
        var k :| 0 <= k < |flushes| && DroppedIn(flushes[k], i);
        assert DroppedIn(more[k], i);
      }
      if i < r.from && DroppedBySome(more, i) {
        var k :| 0 <= k < |more| && DroppedIn(more[k], i);
        assert DroppedIn(flushes[k], i);
      }
      assert i < |fates| ==> all[i] == fates[i];
    }
  }

  class Forwarder {
    const maxBufferedEvents: nat
    const recipient: Recipient
    var accumulated: seq<RawEvent>
    var lastErrorTime: int
    ghost var published: seq<RawEvent>
    ghost var fates: seq<Fate>  // of the events that have left the buffer, in publish order
    ghost var deliveries: Deliveries
    ghost var posts: seq<PostRecord>  // every POST with its outcome
    ghost var flushes: seq<FlushRecord>

    /** What the record of a run says about the fates and about the buffer. */
    ghost predicate LogOk()
      reads this
    {
      && DropsOk(fates, flushes, maxBufferedEvents)
      && (forall k :: 0 <= k < |flushes| && flushes[k].failed ==> !AllDelivered(posts))
      && (forall i :: 0 <= i < |fates| && fates[i] == NotSerializable ==> !AllDelivered(posts))
      && (if flushes == [] then |accumulated| == |published|
          else
            var last := flushes[|flushes| - 1];
            last.published <= |published| && |accumulated| == last.kept + |published| - last.published)
    }

    /** The recipient can tell what to do with the source of an event. */
    predicate Configured(e: RawEvent) {
      !recipient.classify(e).NoConfig?
    }

    /** A chunk with an event whose source is not configured is at the head of the buffer. */
    predicate Poisoned(buffer: seq<RawEvent>) {
      exists i :: 0 <= i < |buffer| && i < FORWARD_CHUNK_SIZE && !Configured(buffer[i])
    }

    /** The buffer is what has no fate yet. Every acknowledged event has a configuration, and has arrived, unless a
        commit has failed. */
    ghost predicate BufferOk()
      reads this, recipient
    {
      && |fates| <= |published|
      && accumulated == published[|fates|..]
      && deliveries.low <= |fates|
      && (forall i :: 0 <= i < |fates| && fates[i] == Acknowledged ==> Configured(published[i]))
      && (!recipient.commitLost ==>
            forall i :: 0 <= i < |fates| && fates[i] == Acknowledged ==> i in deliveries.firsts)
    }

    /** The database holds the arrived events, each once, in publish order. */
    ghost predicate DatabaseOk()
      requires DeliveriesValid(deliveries, |published|)
      requires |recipient.repo.Contents().events| == |recipient.repo.Contents().raws|
      reads this, recipient, recipient.repo
    {
      Timely(recipient.classify, published) ==>
        View(recipient.repo.Contents()) ==
        Dedup([], StampAll(recipient.classify, Select(published, deliveries.firsts)))
    }

    ghost predicate Valid()
      reads this, recipient, recipient.repo
    {
      recipient.Valid() && BufferOk() && DeliveriesValid(deliveries, |published|) && DatabaseOk()
    }

    constructor (maxBufferedEvents: nat, recipient: Recipient, now: int)
      requires recipient.Valid() && recipient.arrived == []
      ensures Valid() && LogOk() && published == [] && fates == []
      ensures lastErrorTime == now - 5000
    {
      this.maxBufferedEvents, this.recipient := maxBufferedEvents, recipient;
      accumulated, lastErrorTime := [], now - 5000;
      published, fates, deliveries := [], [], Deliveries([], 0, 0);
      posts, flushes := [], [];
    }

    /** A request that reaches the recipient. */
    method Arrive(n: nat, commits: bool) returns (ok: bool)
      requires Valid() && n <= |accumulated|
      modifies `deliveries, recipient, recipient.repo
      ensures Valid()
      ensures ok <==> forall i :: 0 <= i < n ==> Configured(accumulated[i])
      ensures old(recipient.commitLost) ==> recipient.commitLost
      ensures ok && !recipient.commitLost ==> forall i :: |fates| <= i < |fates| + n ==> i in deliveries.firsts
      ensures recipient.commitLost == (old(recipient.commitLost) || (ok && !commits))
      ensures !ok || !commits ==>
        recipient.arrived == old(recipient.arrived) && recipient.repo.Contents() == old(recipient.repo.Contents())
      ensures ok && commits ==>
        && old(recipient.arrived) <= recipient.arrived
        && AllProcessed(recipient.classify, accumulated[..n], recipient.arrived[|old(recipient.arrived)|..])
    {
      hide Agrees, View, Dedup, StampAll, Select, Deliver, AllProcessed, Timely, DeliveriesValid, IsProcessed;
      var evts := accumulated[..n];
      ghost var a, b := |fates|, |fates| + n;
      assert evts == published[a..b];
      ok := recipient.ReceiveEvents(evts, commits);
      if ok && commits {
        ghost var processed := recipient.arrived[|old(recipient.arrived)|..];
        assert recipient.arrived == old(recipient.arrived) + processed;
        DeliverValid(deliveries, a, b, |published|);
        DeliverBounds(deliveries, a, b);
        if Timely(recipient.classify, published) {
          DeliverArrived(recipient.classify, published, deliveries, a, b, old(recipient.arrived), processed);
        }
        deliveries := Deliver(deliveries, a, b);
      }
    }

    /** One POST of the oldest `n` buffered events over an unreliable link: the request may get lost, and so may the
        reply to a request that was stored, and so may the commit, without anybody being told. */
    method Post(n: nat, link: Link) returns (reply: Reply)
      requires Valid() && n <= |accumulated|
      modifies `deliveries, `posts, recipient, recipient.repo
      ensures Valid() && posts == old(posts) + [PostRecord(n, reply)]
      ensures reply.CannotSerialize? <==> !link.serializable
      ensures reply.Success? <==>
        link.serializable && link.requestArrives && link.replyArrives && forall i :: 0 <= i < n ==>
          Configured(accumulated[i])
      ensures reply.Success? && !recipient.commitLost ==>
                forall i :: |fates| <= i < |fates| + n ==> i in deliveries.firsts
      ensures var stored := link.serializable && link.requestArrives && forall i :: 0 <= i < n ==>
                Configured(accumulated[i]);
              && recipient.commitLost == (old(recipient.commitLost) || (stored && !link.commits))
              && (!stored || !link.commits ==>
                    && recipient.arrived == old(recipient.arrived)
                    && recipient.repo.Contents() == old(recipient.repo.Contents()))
              && (stored && link.commits ==>
                    && old(recipient.arrived) <= recipient.arrived
                    && AllProcessed(recipient.classify, accumulated[..n],
                                    recipient.arrived[|old(recipient.arrived)|..]))
    {
      hide Agrees, View, Dedup, StampAll, Select, Timely, DeliveriesValid, AllProcessed, Configured;
      var ok := false;
      if link.serializable && link.requestArrives {
        ok := Arrive(n, link.commits);
      }
      reply := if !link.serializable then CannotSerialize else if ok && link.replyArrives then Success else Failure;
      posts := posts + [PostRecord(n, reply)];
    }

    /** Send chunk after chunk until the buffer is empty or something fails. A chunk with an event whose source is not
        configured is never acknowledged, nor is anything behind it. */
    method Forward() returns (failed: bool)
      requires Valid()
      modifies `accumulated, `fates, `deliveries, `posts, recipient, recipient.repo
      ensures Valid() && old(fates) <= fates && old(posts) <= posts
      ensures forall i :: |old(fates)| <= i < |fates| ==> fates[i] != Dropped
      ensures failed <==> !AllDelivered(posts[|old(posts)|..])
      ensures !failed ==> accumulated == [] && forall i :: |old(fates)| <= i < |fates| ==> fates[i] == Acknowledged
      ensures Poisoned(old(accumulated)) ==>
                failed && forall i :: |old(fates)| <= i < |fates| ==> fates[i] == NotSerializable
      ensures SizesOk(posts[|old(posts)|..], |old(accumulated)|)
    {
      hide DatabaseOk, DeliveriesValid, BufferOk, Agrees, View, Dedup, Select, StampAll, Timely, AllProcessed,
        IsProcessed, SizesOk, LeftAfter;
      NoPosts(|accumulated|);
      assert posts[|posts|..] == [];
      while |accumulated| > 0
        invariant Valid() && old(fates) <= fates && old(posts) <= posts
        invariant Poisoned(old(accumulated)) ==> accumulated == old(accumulated) && fates == old(fates)
        invariant AllDelivered(posts[|old(posts)|..])
        invariant forall i :: |old(fates)| <= i < |fates| ==> fates[i] == Acknowledged
        invariant SizesOk(posts[|old(posts)|..], |old(accumulated)|)
        invariant |accumulated| == LeftAfter(|posts[|old(posts)|..]|, |old(accumulated)|)
        decreases |accumulated|
      {
        var chunkSize := FORWARD_CHUNK_SIZE;
        if |accumulated| < FORWARD_CHUNK_SIZE {
          chunkSize := |accumulated|;
        }
        ghost var before := posts[|old(posts)|..];
        var serializable, requestArrives, replyArrives, commits: bool := *, *, *, *;
        var reply := Post(chunkSize, Link(serializable, requestArrives, replyArrives, commits));
        assert posts[|old(posts)|..] == before + [PostRecord(chunkSize, reply)];
        assert (before + [PostRecord(chunkSize, reply)])[|before|].reply == reply;
        OneMorePost(before, |old(accumulated)|, PostRecord(chunkSize, reply));
        if reply.CannotSerialize? {
          Remove(chunkSize, NotSerializable);
          return true;
        }
        if reply.Failure? {
          return true;
        }
        Remove(chunkSize, Acknowledged);
      }
      return false;
    }

    /** Take the n oldest events out of the buffer. */
    method Remove(n: nat, ghost fate: Fate)
      requires Valid() && n <= |accumulated|
      requires fate.Acknowledged? ==> forall i :: 0 <= i < n ==> Configured(accumulated[i])
      requires fate.Acknowledged? && !recipient.commitLost ==>
                 forall i :: |fates| <= i < |fates| + n ==> i in deliveries.firsts
      modifies `accumulated, `fates
      ensures Valid()
      ensures accumulated == old(accumulated)[n..]
      ensures fates == old(fates) + seq(n, _ => fate)
    {
      accumulated := accumulated[n..];
      fates := fates + seq(n, _ => fate);
    }

    /** Drops are always the oldest events, and only as many as exceed the limit. */
    method DropExcessEvents()
      requires Valid()
      modifies `accumulated, `fates
      ensures Valid() && |accumulated| <= maxBufferedEvents
      ensures |old(accumulated)| <= maxBufferedEvents ==> accumulated == old(accumulated) && fates == old(fates)
      ensures |old(accumulated)| > maxBufferedEvents ==>
                var numOver := |old(accumulated)| - maxBufferedEvents;
                accumulated == old(accumulated)[numOver..] && fates == old(fates) + seq(numOver, _ => Dropped)
    {
      if |accumulated| > maxBufferedEvents {
        var numOver := |accumulated| - maxBufferedEvents;
        Remove(numOver, Dropped);
      }
    }

    /** A flush attempt leaves at most the configured number of events buffered. It drops none, and acknowledges all
        that it sends, if and only if every POST succeeds. */
    method Flush(now: int) returns (failed: bool)
      requires Valid() && LogOk()
      modifies `accumulated, `fates, `deliveries, `lastErrorTime, `posts, `flushes, recipient, recipient.repo
      ensures Valid() && LogOk() && old(fates) <= fates && old(posts) <= posts && |flushes| == |old(flushes)| + 1
      ensures |accumulated| <= maxBufferedEvents
      ensures failed <==> !AllDelivered(posts[|old(posts)|..])
      ensures !failed ==> accumulated == [] && forall i :: |old(fates)| <= i < |fates| ==> fates[i] == Acknowledged
      ensures Poisoned(old(accumulated)) ==> failed && forall i :: |old(fates)| <= i < |fates| ==>
        fates[i] != Acknowledged
      ensures lastErrorTime == if failed then now else old(lastErrorTime)
    {
      hide Agrees, View, Dedup, StampAll, Select, Timely, DeliveriesValid, DropsOk;
      failed := Forward();
      if failed {
        lastErrorTime := now;
      }
      ghost var sent, left := fates[|old(fates)|..], |accumulated|;
      DropExcessEvents();
      ghost var r := FlushRecord(failed, left, |accumulated|, |old(fates)| + |sent|, |published|);
      DropsAfterFlush(old(fates), old(flushes), maxBufferedEvents, sent, r);
      assert fates == old(fates) + sent + seq(r.left - r.kept, _ => Dropped);
      PostsGrow(old(posts), posts);
      flushes := flushes + [r];
    }

    method HandleTimeout(now: int)
      requires Valid() && LogOk()
      modifies `accumulated, `fates, `deliveries, `lastErrorTime, `posts, `flushes, recipient, recipient.repo
      ensures Valid() && LogOk() && published == old(published) && old(fates) <= fates && old(posts) <= posts
      ensures |accumulated| <= maxBufferedEvents || (old(accumulated) == [] && accumulated == [])
      ensures AllDelivered(posts[|old(posts)|..]) ==> accumulated == []
      ensures Poisoned(old(accumulated)) ==> forall i :: |old(fates)| <= i < |fates| ==> fates[i] != Acknowledged
    {
      if |accumulated| > 0 {
        var _ := Flush(now);
      }
    }

    /** A new event is buffered; a full chunk is sent at once unless a POST failed less than a second ago. */
    method HandleEvent(evt: RawEvent, now: int)
      requires Valid() && LogOk()
      modifies this, recipient, recipient.repo
      ensures Valid() && LogOk() && published == old(published) + [evt] && old(fates) <= fates && old(posts) <= posts
      ensures |old(accumulated)| + 1 < 1000 || now - old(lastErrorTime) <= 1000 ==>
                accumulated == old(accumulated) + [evt] && fates == old(fates)
      ensures |old(accumulated)| + 1 >= 1000 && now - old(lastErrorTime) > 1000 ==>
                && |accumulated| <= maxBufferedEvents
                && (AllDelivered(posts[|old(posts)|..]) ==>
                      accumulated == [] && forall i :: |old(fates)| <= i < |fates| ==> fates[i] == Acknowledged)
      ensures Poisoned(old(accumulated)) ==> forall i :: |old(fates)| <= i < |fates| ==> fates[i] != Acknowledged
    {
      assert Poisoned(accumulated) ==> Poisoned(accumulated + [evt]) by {
        assert forall i :: 0 <= i < |accumulated| ==> (accumulated + [evt])[i] == accumulated[i];
      }
      Buffer(evt);
      if |accumulated| >= FORWARD_CHUNK_SIZE && now - lastErrorTime > RETRY_DELAY {
        var _ := Flush(now);
      }
    }

    method Buffer(evt: RawEvent)
      requires Valid() && LogOk()
      modifies `accumulated, `published
      ensures Valid() && LogOk() && published == old(published) + [evt] && accumulated == old(accumulated) + [evt]
    {
      assert published[|fates|..] + [evt] == (published + [evt])[|fates|..];
      assert Select(published + [evt], deliveries.firsts) == Select(published, deliveries.firsts);
      if Timely(recipient.classify, published + [evt]) {
        forall i | 0 <= i < |published|
          ensures recipient.classify(published[i]).Time?
        {
          assert (published + [evt])[i] == published[i];
        }
      }
      accumulated := accumulated + [evt];
      published := published + [evt];
    }
  }

  lemma PostsGrow(before: seq<PostRecord>, after: seq<PostRecord>)
    requires before <= after
    ensures AllDelivered(after) <==> AllDelivered(before) && AllDelivered(after[|before|..])
  {
    forall i | |before| <= i < |after|
      ensures after[i] == after[|before|..][i - |before|]
    {
    }
  }

  // ---- What this amounts to ----

  /** Anything that can happen to a forwarder. */
  datatype Input = Publish(evt: RawEvent, now: int) | Timeout(now: int)

  function PublishedBy(inputs: seq<Input>): seq<RawEvent> {
    if inputs == [] then []
    else PublishedBy(inputs[..|inputs| - 1]) +
         match inputs[|inputs| - 1] case Publish(evt, _) => [evt] case Timeout(_) => []
  }

  /** What holds of a forwarder and its recipient at any time. Every published event has left the buffer with exactly
      one fate or is still in it, in publish order; an event whose source is not configured is never acknowledged. The
      tables agree; if all texts carry their time, they hold the events that arrived, each once, in publish order; and
      all the acknowledged ones are among them, unless a commit has failed. */
  ghost predicate Conserved(f: Forwarder)
    reads f, f.recipient, f.recipient.repo
  {
    && |f.fates| <= |f.published| && f.accumulated == f.published[|f.fates|..]
    && (forall i :: 0 <= i < |f.fates| && f.fates[i] == Acknowledged ==> f.Configured(f.published[i]))
    && Agrees(f.recipient.repo.Contents())
    && (Timely(f.recipient.classify, f.published) ==>
          exists firsts: seq<nat> ::
            && (forall i :: 0 <= i < |firsts| ==> firsts[i] < |f.published|)
            && (forall i, j :: 0 <= i < j < |firsts| ==> firsts[i] < firsts[j])
            && (!f.recipient.commitLost ==>
                  forall i :: 0 <= i < |f.fates| && f.fates[i] == Acknowledged ==> i in firsts)
            && View(f.recipient.repo.Contents()) ==
               Dedup([], StampAll(f.recipient.classify, Select(f.published, firsts))))
  }

  /** Nothing is dropped or given up while every POST succeeds; what is dropped are the oldest events that a failed
      flush left above the limit; after every flush the buffer is within the limit, and afterwards it has grown by
      what was published since. */
  ghost predicate Bounded(f: Forwarder)
    reads f
  {
    && (AllDelivered(f.posts) ==> forall i :: 0 <= i < |f.fates| ==> f.fates[i] == Acknowledged)
    && (forall i :: 0 <= i < |f.fates| ==>
          (f.fates[i] == Dropped <==> exists k :: 0 <= k < |f.flushes| && DroppedIn(f.flushes[k], i)))
    && (forall k :: 0 <= k < |f.flushes| ==>
          && f.flushes[k].kept <= f.maxBufferedEvents
          && (f.flushes[k].left > f.flushes[k].kept ==>
                f.flushes[k].failed && f.flushes[k].left > f.maxBufferedEvents == f.flushes[k].kept))
    && (if f.flushes == [] then |f.accumulated| == |f.published|
        else
          var last := f.flushes[|f.flushes| - 1];
          |f.accumulated| == last.kept + |f.published| - last.published)
  }

  /** Every run, with any requests and replies lost, conserves events, keeps the buffer bounded and the database
      exact. */
  method Run(f: Forwarder, inputs: seq<Input>)
    requires f.Valid() && f.LogOk() && f.published == [] && f.fates == []
    modifies f, f.recipient, f.recipient.repo
    ensures f.Valid() && f.published == PublishedBy(inputs)
    ensures Conserved(f) && Bounded(f)
  {
    hide f.Valid, f.LogOk, Conserved, Bounded;
    for n := 0 to |inputs|
      invariant f.Valid() && f.LogOk() && f.published == PublishedBy(inputs[..n])
    {
      assert inputs[..n + 1][..n] == inputs[..n];
      match inputs[n] {
        case Publish(evt, now) => f.HandleEvent(evt, now);
        case Timeout(now) => f.HandleTimeout(now);
      }
    }
    assert inputs[..|inputs|] == inputs;
    Summary(f);
    LogSummary(f);
  }

  lemma Summary(f: Forwarder)
    requires f.Valid()
    ensures Conserved(f)
  {
    hide Agrees, View, Dedup, Select, StampAll;
    var firsts := f.deliveries.firsts;
    assert forall i :: 0 <= i < |firsts| ==> firsts[i] < |f.published|;
  }

  lemma LogSummary(f: Forwarder)
    requires f.LogOk()
    ensures Bounded(f)
  {
    forall i | 0 <= i < |f.fates|
      ensures f.fates[i] == Dropped <==> exists k :: 0 <= k < |f.flushes| && DroppedIn(f.flushes[k], i)
      ensures AllDelivered(f.posts) ==> f.fates[i] == Acknowledged
    {
      assert f.fates[i] == Dropped <==> DroppedBySome(f.flushes, i);
      assert forall k :: 0 <= k < |f.flushes| ==> FlushOk(f.flushes[k], f.maxBufferedEvents);
    }
  }

  /** The clock is no substitute for a time in the text. Whatever is stored and arrives in between, an event that is
      delivered again is ignored if and only if it gets the timestamp it had before, or one of some other event with
      the same host, source and offset. Only a text that contains its time guarantees that it does. */
  lemma {:induction false} DeliveredTwiceStoredOnce(classify: RawEvent -> TimeOf, e: RawEvent, p1: Event, p2: Event,
                                                    v: seq<Event>, mid: seq<Event>)
    requires IsProcessed(classify, e, p1) && IsProcessed(classify, e, p2)
    ensures Dedup(v, [p1] + mid + [p2]) == Dedup(v, [p1] + mid) <==>
            p1.timestamp == p2.timestamp || InView(v, KeyOf(p2)) ||
            exists i :: 0 <= i < |mid| && KeyOf(mid[i]) == KeyOf(p2)
    ensures classify(e).Time? ==> p1.timestamp == p2.timestamp
    ensures classify(e).NoTime? ==> forall t :: IsProcessed(classify, e, p1.(timestamp := t))
  {
    var es := [p1] + mid;
    ArrivalIgnoredIff(v, es, p2);
    assert es[0] == p1;
    assert forall i :: 0 <= i < |mid| ==> es[i + 1] == mid[i];
    assert KeyOf(p1) == KeyOf(p2) <==> p1.timestamp == p2.timestamp;
    if i :| 0 <= i < |es| && KeyOf(es[i]) == KeyOf(p2) && p1.timestamp != p2.timestamp {
      assert mid[i - 1] == es[i];
    }
  }

  // ---- Events of one file ----

  /** The events of one opening of a file as they reach the database, each with the time of its text. */
  function Stamped(ps: seq<FileWatching.RawEvent>, sourceId: string, times: seq<int>): (r: seq<Event>)
    requires |times| == |ps|
    ensures |r| == |ps|
  {
    seq(|ps|, i requires 0 <= i < |ps| => Event(ps[i].raw, ps[i].host, ps[i].source, sourceId, times[i], ps[i].offset))
  }

  lemma SameKeyIff(found: seq<FileWatching.ParserEvent>, host: string, source: string, id: nat, sourceId: string,
                   times: seq<int>, m: nat, n: nat)
    requires m < n < |found| == |times|
    ensures var es := Stamped(FileWatching.Published(found, host, source, id, 0), sourceId, times);
            KeyOf(es[m]) == KeyOf(es[n]) <==>
            times[m] == times[n] && forall k :: m <= k < n ==> found[k].offset == 0
  {
    FileWatching.SameOffsetIff(found, host, source, id, m, n);
    FileWatching.PublishedAt(found, host, source, id, 0, m);
    FileWatching.PublishedAt(found, host, source, id, 0, n);
  }

  /** Which events of an opened file the database loses, however the file is cut into reads: event n is dropped as a
      duplicate if and only if its key was there before, or some event m of the same time precedes it such that m and
      all the events between them were the first of their calls. */
  lemma FileEventLostIff(v: seq<Event>, found: seq<FileWatching.ParserEvent>, host: string, source: string, id: nat,
                         sourceId: string, times: seq<int>, n: nat)
    requires n < |found| == |times|
    ensures var es := Stamped(FileWatching.Published(found, host, source, id, 0), sourceId, times);
            Dedup(v, es[..n + 1]) == Dedup(v, es[..n]) <==>
            InView(v, KeyOf(es[n])) ||
            exists m :: 0 <= m < n && times[m] == times[n] && forall k :: m <= k < n ==> found[k].offset == 0
  {
    var es := Stamped(FileWatching.Published(found, host, source, id, 0), sourceId, times);
    assert es[..n + 1] == es[..n] + [es[n]];
    ArrivalIgnoredIff(v, es[..n], es[n]);
    forall m | 0 <= m < n
      ensures KeyOf(es[..n][m]) == KeyOf(es[n]) <==>
              times[m] == times[n] && forall k :: m <= k < n ==> found[k].offset == 0
    {
      SameKeyIff(found, host, source, id, sourceId, times, m, n);
    }
    if m :| 0 <= m < n && times[m] == times[n] && forall k :: m <= k < n ==> found[k].offset == 0 {
      assert KeyOf(es[..n][m]) == KeyOf(es[n]);
    }
    if i :| 0 <= i < |es[..n]| && KeyOf(es[..n][i]) == KeyOf(es[n]) {
      assert times[i] == times[n] && forall k :: i <= k < n ==> found[k].offset == 0;
    }
  }

  /** In particular the second event of an opened file is lost if its text has the time of the first. */
  lemma SecondEventIsLost(v: seq<Event>, found: seq<FileWatching.ParserEvent>, content: string, d: string, host: string,
                          source: string, id: nat, sourceId: string, times: seq<int>)
    requires d != "" && FileWatching.OpeningOk(found, content, d)
    requires |found| == |times| && |found| > 1 && times[0] == times[1]
    ensures var es := Stamped(FileWatching.Published(found, host, source, id, 0), sourceId, times);
            Dedup(v, es[..2]) == Dedup(v, es[..1])
  {
    FileEventLostIff(v, found, host, source, id, sourceId, times, 1);
    assert forall k :: 0 <= k < 1 ==> found[k].offset == 0;
  }

  // ---- Batch mode ----

  /** On a repository in batch mode a lost reply does damage. The retry of a batch stores nothing, but it moves the ids
      of the two tables apart by the length of the batch; the next new batch then loses that many of its texts, and
      the others are joined with the wrong events. */
  lemma LostReplyInBatchMode(s: Store, es: seq<Event>, next: seq<Event>)
    requires Agrees(s) && Aligned(s) && es != [] && next != []
    ensures AddTrueBatch(s, es).Some?
    ensures var once := AddTrueBatch(s, es).value;
            var twice := once.(lastId := once.lastId + |es|);
            && Gap(once) >= 0
            && AddTrueBatch(once, es) == Some(twice)
            && Gap(twice) == Gap(once) + |es|
            && (AllNew(twice, next) ==>
                  && AddTrueBatch(twice, next) ==
                     Some(Store(twice.events + NewRows(twice.lastId, next), twice.lastId + |next|,
                                twice.raws + ShiftedRaws(twice.lastId, next, Gap(twice))))
                  && !JoinedWithOwnTexts(AddTrueBatch(twice, next).value, twice.lastId, next)
                  && !HasRowid(AddTrueBatch(twice, next).value.raws, twice.lastId + |next|))
  {
    hide Agrees, InsertOrIgnore, DropOrphans, InsertRaws, NewRows, ShiftedRaws, AllNew, Dedup, View, JoinedWithOwnTexts;
    TrueBatchRefines(s, es);
    var once := AddTrueBatch(s, es).value;
    AgreesShape(s);
    AgreesShape(once);
    GapIsNatural(once);
    forall i | 0 <= i < |es|
      ensures HasKey(once.events, KeyOf(es[i]))
    {
      DedupHas(View(s), es, i);
      KeysInView(once, KeyOf(es[i]));
    }
    RetryWidensGap(once, es);
    var twice := once.(lastId := once.lastId + |es|);
    if AllNew(twice, next) {
      NewBatchIsShifted(twice, next);
      NewBatchJoinedIffAligned(twice, next);
    }
  }
}
