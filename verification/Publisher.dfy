/** The MQTT publisher's cache of what it published last, which saves it from publishing a value again. */
module Publisher {
  import opened Common

  type Topic = string

  /** A message: a state topic and its payload. */
  type Item = (Topic, string)

  /** What broker a configuration names, and the key that tells whether a client made for another one may be kept. */
  datatype Config = Config(broker: string, key: string, availability: Topic)

  /** What becomes of one publish, which no broker acknowledges: delivered; reported as done and yet dropped on the way;
      failed; or delivered after the publisher gave up waiting for it. */
  datatype Fate = Delivered | Dropped | Failed | Late

  /** The fate of the publishes of one call, by their number. */
  type Link = nat -> Fate

  /** The last payload on each topic. */
  type Topics = map<Topic, string>

  /** The publisher, with the broker that its client is connected to, and all brokers. */
  datatype State = State(client: Option<string>, key: string, lastPublished: Topics, brokers: map<string, Topics>)

  const INITIAL := State(None, "", map[], map[])

  function TopicsOf(brokers: map<string, Topics>, broker: string): Topics {
    if broker in brokers then brokers[broker] else map[]
  }

  function Delivers(brokers: map<string, Topics>, broker: string, item: Item): map<string, Topics> {
    brokers[broker := TopicsOf(brokers, broker)[item.0 := item.1]]
  }

  // ----- what the operations do -----

  predicate IsCached(s: State, item: Item) {
    item.0 in s.lastPublished && s.lastPublished[item.0] == item.1
  }

  /** Whether a publish reports success. */
  predicate Reports(s: State, fate: Fate) {
    s.client.Some? && (fate == Delivered || fate == Dropped)
  }

  predicate Arrives(fate: Fate) {
    fate == Delivered || fate == Late
  }

  /** Publishes whatever the cache says, and remembers it if that is reported as done. */
  function Publish(s: State, item: Item, fate: Fate): State {
    if s.client.None? then s
    else
      s.(brokers := if Arrives(fate) then Delivers(s.brokers, s.client.value, item) else s.brokers,
         lastPublished := if Reports(s, fate) then s.lastPublished[item.0 := item.1] else s.lastPublished)
  }

  /** Publishes what the cache does not have, up to the first publish that reports failure; n publishes went before. */
  function PublishAll(s: State, items: seq<Item>, link: Link, n: nat): State
    decreases |items|
  {
    if items == [] then s
    else if IsCached(s, items[0]) then PublishAll(s, items[1..], link, n)
    else
      var t := Publish(s, items[0], link(n));
      if Reports(s, link(n)) then PublishAll(t, items[1..], link, n + 1) else t
  }

  predicate AllReported(s: State, items: seq<Item>, link: Link, n: nat)
    decreases |items|
  {
    items == [] ||
    if IsCached(s, items[0]) then AllReported(s, items[1..], link, n)
    else Reports(s, link(n)) && AllReported(Publish(s, items[0], link(n)), items[1..], link, n + 1)
  }

  function Forget(s: State): State {
    s.(client := None, key := "", lastPublished := map[])
  }

  function Ensure(s: State, cfg: Config, connects: bool): State {
    if s.client.Some? && s.key == cfg.key then s
    else if connects then s.(client := Some(cfg.broker), key := cfg.key, lastPublished := map[])
    else Forget(s)
  }

  function Disconnected(s: State, cfg: Config, open: bool, fate: Fate): State {
    if s.client.Some? && open then Forget(Publish(s, (cfg.availability, "offline"), fate)) else Forget(s)
  }

  // ----- the publisher -----

  class Service {
    var client: Option<string>
    var key: string
    var lastPublished: Topics
    /** What the brokers last received; they keep it, and nobody else publishes on these topics. */
    var brokers: map<string, Topics>

    ghost function Contents(): State
      reads this
    {
      State(client, key, lastPublished, brokers)
    }

    constructor ()
      ensures Contents() == INITIAL
    {
      client, key, lastPublished, brokers := None, "", map[], map[];
    }

    method ResetClient()
      modifies this
      ensures Contents() == Forget(old(Contents()))
    {
      client := None;
      key := "";
      lastPublished := map[];
    }

    method EnsureClient(cfg: Config, connects: bool) returns (ok: bool)
      modifies this
      ensures Contents() == Ensure(old(Contents()), cfg, connects)
      ensures brokers == old(brokers)
      ensures old(client.Some? && key == cfg.key) ==>
                ok && client == old(client) && key == old(key) && lastPublished == old(lastPublished)
      ensures !old(client.Some? && key == cfg.key) ==>
                && ok == connects && lastPublished == map[]
                && client == (if connects then Some(cfg.broker) else None) && key == (if connects then cfg.key else "")
    {
      if client.Some? && key == cfg.key {
        return true;
      }
      ResetClient();
      client, key := Some(cfg.broker), cfg.key;
      if !connects {
        ResetClient();
        return false;
      }
      ok := true;
    }

    method PublishMessage(item: Item, fate: Fate) returns (ok: bool)
      modifies this`brokers
      ensures brokers == Publish(old(Contents()), item, fate).brokers
      ensures ok <==> Reports(Contents(), fate)
      ensures ok <==> client.Some? && fate in {Delivered, Dropped}
      ensures client.Some? && fate in {Delivered, Late} ==>
                brokers == old(brokers)[client.value := TopicsOf(old(brokers), client.value)[item.0 := item.1]]
      ensures client.None? || fate in {Dropped, Failed} ==> brokers == old(brokers)
    {
      if client.None? {
        return false;
      }
      if Arrives(fate) {
        brokers := Delivers(brokers, client.value, item);
      }
      ok := fate == Delivered || fate == Dropped;
    }

    method PublishAndRemember(item: Item, fate: Fate) returns (ok: bool)
      modifies this
      ensures Contents() == Publish(old(Contents()), item, fate)
      ensures ok <==> Reports(old(Contents()), fate)
    {
      ok := PublishMessage(item, fate);
      if ok {
        lastPublished := lastPublished[item.0 := item.1];
      }
    }

    method PublishTelemetry(snapshot: seq<Item>, link: Link) returns (ok: bool)
      modifies this
      ensures Contents() == PublishAll(old(Contents()), snapshot, link, 0)
      ensures ok <==> AllReported(old(Contents()), snapshot, link, 0)
    {
      var n := 0;
      for i := 0 to |snapshot|
        invariant PublishAll(Contents(), snapshot[i..], link, n) == PublishAll(old(Contents()), snapshot, link, 0)
        invariant AllReported(Contents(), snapshot[i..], link, n) == AllReported(old(Contents()), snapshot, link, 0)
      {
        var item := snapshot[i];
        assert snapshot[i..][0] == item && snapshot[i..][1..] == snapshot[i + 1..];
        if item.0 in lastPublished && lastPublished[item.0] == item.1 {
          continue;
        }
        var published := PublishAndRemember(item, link(n));
        if !published {
          return false;
        }
        n := n + 1;
      }
      ok := true;
    }

    /** The messages of a map, in whatever order they come. */
    method InSomeOrder(values: Topics) returns (items: seq<Item>)
      ensures Overlay(map[], items) == values
    {
      items := [];
      var rest := values;
      while rest.Keys != {}
        invariant rest.Keys <= values.Keys
        invariant forall t :: t in Overlay(map[], items) <==> t in values && t !in rest
        invariant forall t <- Overlay(map[], items) :: t in values && Overlay(map[], items)[t] == values[t]
        decreases |rest.Keys|
      {
        var topic :| topic in rest.Keys;
        ghost var before, had := items, rest;
        items := items + [(topic, values[topic])];
        rest := rest - {topic};
        assert rest.Keys == had.Keys - {topic};
        assert items[..|before|] == before;
      }
    }

    method PublishStormCharge(values: Topics, link: Link) returns (ok: bool, ghost items: seq<Item>)
      modifies this
      ensures Overlay(map[], items) == values
      ensures Contents() == PublishAll(old(Contents()), items, link, 0)
      ensures ok <==> AllReported(old(Contents()), items, link, 0)
    {
      var order := InSomeOrder(values);
      items := order;
      ok := PublishTelemetry(order, link);
    }

    method PublishCurrentValue(topic: Topic, snapshot: seq<Item>, fate: Fate) returns (ok: bool)
      modifies this
      ensures match CurrentValue(topic, snapshot)
              case None => ok && Contents() == old(Contents())
              case Some(item) =>
                Contents() == Publish(old(Contents()), item, fate) && (ok <==> Reports(old(Contents()), fate))
    {
      for i := 0 to |snapshot|
        invariant CurrentValue(topic, snapshot) == CurrentValue(topic, snapshot[i..])
        invariant Contents() == old(Contents())
      {
        assert snapshot[i..][1..] == snapshot[i + 1..];
        if snapshot[i].0 != topic {
          continue;
        }
        ok := PublishAndRemember(snapshot[i], fate);
        return;
      }
      ok := true;
    }

    /** After a command: what the written value reads as, or else what the store has. */
    method PublishCommandState(topic: Topic, writeOnly: bool, echo: Option<string>, snapshot: seq<Item>, fate: Fate)
      returns (ok: bool)
      modifies this
      ensures match (if writeOnly then None
                     else if echo.Some? then Some((topic, echo.value))
                     else CurrentValue(topic, snapshot))
              case None => ok && Contents() == old(Contents())
              case Some(item) =>
                Contents() == Publish(old(Contents()), item, fate) && (ok <==> Reports(old(Contents()), fate))
    {
      if writeOnly {
        return true;
      }
      if echo.Some? {
        ok := PublishAndRemember((topic, echo.value), fate);
        return;
      }
      ok := PublishCurrentValue(topic, snapshot, fate);
    }

    method Disconnect(cfg: Config, open: bool, fate: Fate)
      modifies this
      ensures Contents() == Disconnected(old(Contents()), cfg, open, fate)
      ensures client == None && key == "" && lastPublished == map[]
      ensures old(client).Some? && open && fate in {Delivered, Late} ==>
                && old(client).value in brokers
                && cfg.availability in brokers[old(client).value]
                && brokers[old(client).value][cfg.availability] == "offline"
      ensures old(client).None? || !open || fate in {Dropped, Failed} ==> brokers == old(brokers)
    {
      if client.Some? && open {
        var _ := PublishMessage((cfg.availability, "offline"), fate);
      }
      ResetClient();
    }
  }

  function CurrentValue(topic: Topic, snapshot: seq<Item>): Option<Item>
    decreases |snapshot|
  {
    if snapshot == [] then None
    else if snapshot[0].0 == topic then Some(snapshot[0])
    else CurrentValue(topic, snapshot[1..])
  }

  /** It is the first value with the topic. */
  lemma {:induction false} CurrentValueIsFirst(topic: Topic, snapshot: seq<Item>, i: nat)
    requires i <= |snapshot| && (forall j :: 0 <= j < i ==> snapshot[j].0 != topic)
    requires i < |snapshot| ==> snapshot[i].0 == topic
    ensures CurrentValue(topic, snapshot) == if i < |snapshot| then Some(snapshot[i]) else None
    decreases |snapshot|
  {
    if snapshot != [] && i > 0 {
      CurrentValueIsFirst(topic, snapshot[1..], i - 1);
    }
  }

  /** A broker's topics after every message is published, whatever was published before. */
  function Overlay(topics: Topics, items: seq<Item>): Topics
    decreases |items|
  {
    if items == [] then topics
    else Overlay(topics, items[..|items| - 1])[items[|items| - 1].0 := items[|items| - 1].1]
  }

  /** Messages end up over what was there before. */
  lemma {:induction false} OverlayOver(topics: Topics, items: seq<Item>)
    ensures Overlay(topics, items) == topics + Overlay(map[], items)
    decreases |items|
  {
    if items != [] {
      OverlayOver(topics, items[..|items| - 1]);
    }
  }

  // ----- the cache agrees with the broker -----

  /** What the cache has is what the client's broker has; without a client it has nothing. */
  predicate Consistent(s: State) {
    match s.client
    case None => s.lastPublished == map[]
    case Some(broker) =>
      var topics := TopicsOf(s.brokers, broker);
      forall t <- s.lastPublished :: t in topics && topics[t] == s.lastPublished[t]
  }

  /** A publish that leaves the cache wrong: one that comes late and replaces a value which the cache keeps, or one that
      is cached and dropped, unless the broker had that payload anyway. */
  predicate Misleads(s: State, item: Item, fate: Fate) {
    match s.client
    case None => false
    case Some(broker) =>
      || (fate == Late && item.0 in s.lastPublished && s.lastPublished[item.0] != item.1)
      || (fate == Dropped && !Has(s.brokers, broker, item))
  }

  predicate Has(brokers: map<string, Topics>, broker: string, item: Item) {
    var topics := TopicsOf(brokers, broker);
    item.0 in topics && topics[item.0] == item.1
  }

  /** One publish keeps the cache in agreement with the broker exactly when it does not mislead. */
  lemma PublishConsistentIff(s: State, item: Item, fate: Fate)
    requires Consistent(s)
    ensures Consistent(Publish(s, item, fate)) <==> !Misleads(s, item, fate)
  {
    if s.client.Some? {
      var t := Publish(s, item, fate);
      assert Reports(s, fate) ==> item.0 in t.lastPublished && t.lastPublished[item.0] == item.1;
      assert fate == Late ==> TopicsOf(t.brokers, t.client.value)[item.0] == item.1;
    }
  }

  predicate AllClear(s: State, items: seq<Item>, link: Link, n: nat)
    decreases |items|
  {
    items == [] ||
    if IsCached(s, items[0]) then AllClear(s, items[1..], link, n)
    else
      && !Misleads(s, items[0], link(n))
      && (Reports(s, link(n)) ==> AllClear(Publish(s, items[0], link(n)), items[1..], link, n + 1))
  }

  lemma {:induction false} PublishAllConsistent(s: State, items: seq<Item>, link: Link, n: nat)
    requires Consistent(s) && AllClear(s, items, link, n)
    ensures Consistent(PublishAll(s, items, link, n))
    decreases |items|
  {
    if items == [] {
    } else if IsCached(s, items[0]) {
      PublishAllConsistent(s, items[1..], link, n);
    } else {
      PublishConsistentIff(s, items[0], link(n));
      if Reports(s, link(n)) {
        PublishAllConsistent(Publish(s, items[0], link(n)), items[1..], link, n + 1);
      }
    }
  }

  // ----- a call over many topics -----

  predicate DistinctTopics(items: seq<Item>) {
    forall i, j :: 0 <= i < j < |items| ==> items[i].0 != items[j].0
  }

  predicate AboutOthers(items: seq<Item>, topic: Topic) {
    forall i :: 0 <= i < |items| ==> items[i].0 != topic
  }

  lemma {:induction false} OtherBrokersStay(s: State, items: seq<Item>, link: Link, n: nat, other: string)
    requires s.client != Some(other)
    ensures var t := PublishAll(s, items, link, n);
            TopicsOf(t.brokers, other) == TopicsOf(s.brokers, other)
    decreases |items|
  {
    if items != [] {
      if IsCached(s, items[0]) {
        OtherBrokersStay(s, items[1..], link, n, other);
      } else if Reports(s, link(n)) {
        OtherBrokersStay(Publish(s, items[0], link(n)), items[1..], link, n + 1, other);
      }
    }
  }

  lemma {:induction false} ClientStays(s: State, items: seq<Item>, link: Link, n: nat)
    ensures PublishAll(s, items, link, n).client == s.client
    decreases |items|
  {
    if items != [] {
      if IsCached(s, items[0]) {
        ClientStays(s, items[1..], link, n);
      } else if Reports(s, link(n)) {
        ClientStays(Publish(s, items[0], link(n)), items[1..], link, n + 1);
      }
    }
  }

  predicate SameOn(a: Topics, b: Topics, topic: Topic) {
    (topic in a <==> topic in b) && (topic in a ==> a[topic] == b[topic])
  }

  /** What a call does not publish stays as it was, in the cache and on the client's broker. */
  lemma {:induction false} OthersStay(s: State, items: seq<Item>, link: Link, n: nat, broker: string, topic: Topic)
    requires s.client == Some(broker) && AboutOthers(items, topic)
    ensures var t := PublishAll(s, items, link, n);
            && t.client == s.client
            && SameOn(t.lastPublished, s.lastPublished, topic)
            && SameOn(TopicsOf(t.brokers, broker), TopicsOf(s.brokers, broker), topic)
    decreases |items|
  {
    if items != [] {
      assert items[0].0 != topic;
      if IsCached(s, items[0]) {
        OthersStay(s, items[1..], link, n, broker, topic);
      } else if Reports(s, link(n)) {
        OthersStay(Publish(s, items[0], link(n)), items[1..], link, n + 1, broker, topic);
      }
    }
  }

  lemma WrongStays(s: State, items: seq<Item>, link: Link, n: nat, broker: string, topic: Topic)
    requires s.client == Some(broker) && AboutOthers(items, topic)
    requires topic in s.lastPublished && !Has(s.brokers, broker, (topic, s.lastPublished[topic]))
    ensures !Consistent(PublishAll(s, items, link, n))
  {
    OthersStay(s, items, link, n, broker, topic);
    assert topic in PublishAll(s, items, link, n).lastPublished;
  }

  /** Over different topics a call keeps the cache in agreement exactly when none of its publishes misleads. */
  lemma {:induction false} PublishAllConsistentIff(s: State, items: seq<Item>, link: Link, n: nat)
    requires Consistent(s) && DistinctTopics(items)
    ensures Consistent(PublishAll(s, items, link, n)) <==> AllClear(s, items, link, n)
    decreases |items|
  {
    if items == [] {
    } else if IsCached(s, items[0]) {
      PublishAllConsistentIff(s, items[1..], link, n);
    } else {
      var t := Publish(s, items[0], link(n));
      PublishConsistentIff(s, items[0], link(n));
      if Reports(s, link(n)) {
        if Misleads(s, items[0], link(n)) {
          WrongStays(t, items[1..], link, n + 1, s.client.value, items[0].0);
        } else {
          PublishAllConsistentIff(t, items[1..], link, n + 1);
        }
      }
    }
  }

  lemma {:induction false} OverlayFirst(topics: Topics, items: seq<Item>)
    requires items != []
    ensures Overlay(topics, items) == Overlay(topics[items[0].0 := items[0].1], items[1..])
    decreases |items|
  {
    var n := |items| - 1;
    if n == 0 {
      assert Overlay(topics, items[..0]) == topics;
    } else {
      OverlayFirst(topics, items[..n]);
      assert items[..n][1..] == items[1..][..n - 1];
    }
  }

  /** After a call that reports success the cache has every message. */
  lemma {:induction false} CacheAfter(s: State, items: seq<Item>, link: Link, n: nat)
    requires AllReported(s, items, link, n)
    ensures PublishAll(s, items, link, n).lastPublished == Overlay(s.lastPublished, items)
    decreases |items|
  {
    if items != [] {
      OverlayFirst(s.lastPublished, items);
      if IsCached(s, items[0]) {
        assert s.lastPublished[items[0].0 := items[0].1] == s.lastPublished;
        CacheAfter(s, items[1..], link, n);
      } else {
        CacheAfter(Publish(s, items[0], link(n)), items[1..], link, n + 1);
      }
    }
  }

  lemma {:induction false} OverlayKeys(items: seq<Item>, topic: Topic)
    ensures topic in Overlay(map[], items) <==> !AboutOthers(items, topic)
    decreases |items|
  {
    if items != [] {
      OverlayKeys(items[..|items| - 1], topic);
    }
  }

  /** On one topic: published last, or as before. */
  lemma OnTopic(s: State, items: seq<Item>, link: Link, broker: string, topic: Topic)
    requires AllReported(s, items, link, 0) && s.client == Some(broker)
    ensures var t, all := PublishAll(s, items, link, 0), Overlay(map[], items);
            && t.client == Some(broker)
            && (topic in all ==> topic in t.lastPublished && t.lastPublished[topic] == all[topic])
            && (topic !in all ==> SameOn(t.lastPublished, s.lastPublished, topic)
                                  && SameOn(TopicsOf(t.brokers, broker), TopicsOf(s.brokers, broker), topic))
  {
    CacheAfter(s, items, link, 0);
    OverlayOver(s.lastPublished, items);
    OverlayKeys(items, topic);
    ClientStays(s, items, link, 0);
    if topic !in Overlay(map[], items) {
      OthersStay(s, items, link, 0, broker, topic);
    }
  }

  /** After a call that reports success the client's broker is as if everything had been published without a cache
      exactly when the cache still agrees with it; and no other broker is touched. */
  lemma CachedIsUncachedIff(s: State, items: seq<Item>, link: Link, broker: string)
    requires Consistent(s) && AllReported(s, items, link, 0) && s.client == Some(broker)
    ensures var t := PublishAll(s, items, link, 0);
            && t.client == Some(broker)
            && (TopicsOf(t.brokers, broker) == Overlay(TopicsOf(s.brokers, broker), items) <==> Consistent(t))
            && forall other :: other != broker ==> TopicsOf(t.brokers, other) == TopicsOf(s.brokers, other)
  {
    var t, all := PublishAll(s, items, link, 0), Overlay(map[], items);
    var before, after := TopicsOf(s.brokers, broker), TopicsOf(t.brokers, broker);
    OverlayOver(before, items);
    OnTopic(s, items, link, broker, "");
    if Consistent(t) {
      forall topic ensures SameOn(after, before + all, topic) { OnTopic(s, items, link, broker, topic); }
      SameEverywhere(after, before + all);
    }
    if after == before + all {
      forall topic | topic in t.lastPublished ensures topic in after && after[topic] == t.lastPublished[topic] {
        OnTopic(s, items, link, broker, topic);
      }
    }
    forall other | other != broker ensures TopicsOf(t.brokers, other) == TopicsOf(s.brokers, other) {
      OtherBrokersStay(s, items, link, 0, other);
    }
  }

  lemma SameEverywhere(a: Topics, b: Topics)
    requires forall topic :: SameOn(a, b, topic)
    ensures a == b
  {
    assert forall topic :: topic in a ==> SameOn(a, b, topic);
    assert forall topic :: topic in b ==> SameOn(a, b, topic);
  }

  /** A call that reports success and in which nothing misleads does what publishing the whole snapshot would do. */
  lemma CachedIsUncached(s: State, items: seq<Item>, link: Link, broker: string)
    requires Consistent(s) && AllReported(s, items, link, 0) && AllClear(s, items, link, 0) && s.client == Some(broker)
    ensures var t := PublishAll(s, items, link, 0);
            && Consistent(t) && t.client == Some(broker)
            && TopicsOf(t.brokers, broker) == Overlay(TopicsOf(s.brokers, broker), items)
            && forall other :: other != broker ==> TopicsOf(t.brokers, other) == TopicsOf(s.brokers, other)
  {
    PublishAllConsistent(s, items, link, 0);
    CachedIsUncachedIff(s, items, link, broker);
  }

  // ----- calls that get through -----

  lemma {:induction false} NothingMisleads(s: State, items: seq<Item>, link: Link, n: nat)
    requires s.client.Some? && forall k :: link(k) == Delivered
    ensures AllReported(s, items, link, n) && AllClear(s, items, link, n)
    decreases |items|
  {
    if items != [] {
      if IsCached(s, items[0]) {
        NothingMisleads(s, items[1..], link, n);
      } else {
        NothingMisleads(Publish(s, items[0], link(n)), items[1..], link, n + 1);
      }
    }
  }

  lemma {:induction false} OverlayHas(topics: Topics, items: seq<Item>, i: nat)
    requires DistinctTopics(items) && i < |items|
    ensures items[i].0 in Overlay(topics, items) && Overlay(topics, items)[items[i].0] == items[i].1
    decreases |items|
  {
    var n := |items| - 1;
    if i < n {
      assert items[..n][i] == items[i];
      OverlayHas(topics, items[..n], i);
    }
  }

  /** When every publish is delivered, a call over different topics succeeds, and the client's broker has every value of
      it and the cache too.  Without a client it can only succeed over what is cached already. */
  lemma {:induction false} DeliveredArrives(s: State, items: seq<Item>, link: Link, i: nat)
    requires Consistent(s) && DistinctTopics(items) && i < |items|
    requires forall k :: link(k) == Delivered
    ensures s.client.None? ==> !AllReported(s, items, link, 0) && PublishAll(s, items, link, 0) == s
    ensures s.client.Some? ==>
              var t := PublishAll(s, items, link, 0);
              && AllReported(s, items, link, 0) && t.client == s.client
              && s.client.value in t.brokers
              && items[i].0 in t.brokers[s.client.value] && t.brokers[s.client.value][items[i].0] == items[i].1
              && items[i].0 in t.lastPublished && t.lastPublished[items[i].0] == items[i].1
  {
    if s.client.Some? {
      var broker := s.client.value;
      NothingMisleads(s, items, link, 0);
      CachedIsUncached(s, items, link, broker);
      OverlayHas(TopicsOf(s.brokers, broker), items, i);
      CacheAfter(s, items, link, 0);
      OverlayHas(s.lastPublished, items, i);
    }
  }

  /** The storm-charge messages, in whatever order a map yields them, end up on the broker all together, unless one of
      them misleads. */
  lemma AnyOrderWillDo(s: State, values: Topics, items: seq<Item>, link: Link, broker: string)
    requires Consistent(s) && AllReported(s, items, link, 0) && AllClear(s, items, link, 0) && s.client == Some(broker)
    requires Overlay(map[], items) == values
    ensures TopicsOf(PublishAll(s, items, link, 0).brokers, broker) == TopicsOf(s.brokers, broker) + values
  {
    CachedIsUncached(s, items, link, broker);
    OverlayOver(TopicsOf(s.brokers, broker), items);
  }

  // ----- runs -----

  datatype Event =
    | EnsureClient(cfg: Config, connects: bool)
    | PublishBatch(items: seq<Item>, link: Link)
    | Echo(item: Item, fate: Fate)
    | Reset
    | Disconnect(final: Config, open: bool, last: Fate)

  function Step(s: State, e: Event): State {
    match e
    case EnsureClient(cfg, connects) => Ensure(s, cfg, connects)
    case PublishBatch(items, link) => PublishAll(s, items, link, 0)
    case Echo(item, fate) => Publish(s, item, fate)
    case Reset => Forget(s)
    case Disconnect(cfg, open, fate) => Disconnected(s, cfg, open, fate)
  }

  predicate Clear(s: State, e: Event) {
    match e
    case PublishBatch(items, link) => AllClear(s, items, link, 0)
    case Echo(item, fate) => !Misleads(s, item, fate)
    case _ => true
  }

  /** A batch in which no topic occurs twice. */
  predicate WellFormed(e: Event) {
    e.PublishBatch? ==> DistinctTopics(e.items)
  }

  lemma StepConsistentIff(s: State, e: Event)
    requires Consistent(s) && WellFormed(e)
    ensures Consistent(Step(s, e)) <==> Clear(s, e)
  {
    match e {
      case PublishBatch(items, link) => PublishAllConsistentIff(s, items, link, 0);
      case Echo(item, fate) => PublishConsistentIff(s, item, fate);
      case _ =>
    }
  }

  lemma StepConsistent(s: State, e: Event)
    requires Consistent(s) && Clear(s, e)
    ensures Consistent(Step(s, e))
  {
    match e {
      case PublishBatch(items, link) => PublishAllConsistent(s, items, link, 0);
      case Echo(item, fate) => PublishConsistentIff(s, item, fate);
      case _ =>
    }
  }

  function Run(s: State, es: seq<Event>): State
    decreases |es|
  {
    if es == [] then s else Run(Step(s, es[0]), es[1..])
  }

  predicate RunClear(s: State, es: seq<Event>)
    decreases |es|
  {
    es == [] || (Clear(s, es[0]) && RunClear(Step(s, es[0]), es[1..]))
  }

  /** Over every run of publishes, echoes, new configurations, resets and disconnects in which no publish misleads, the
      cache agrees with the broker. */
  lemma {:induction false} ConsistentAlways(s: State, es: seq<Event>)
    requires Consistent(s) && RunClear(s, es)
    ensures Consistent(Run(s, es))
    decreases |es|
  {
    if es != [] {
      StepConsistent(s, es[0]);
      ConsistentAlways(Step(s, es[0]), es[1..]);
    }
  }

  /** After a publish that misleads, a later call can succeed and leave an old value on the broker: a value that came
      late stays although the old one is wanted back, and one that was dropped is never sent again. */
  lemma MisleadingPublishGoesStale(fate: Fate) returns (before: State, sent: Item, item: Item)
    requires fate == Late || fate == Dropped
    ensures Consistent(before) && before.client.Some?
    ensures var s := Publish(before, sent, fate);
            && AllReported(s, [item], _ => Delivered, 0)
            && TopicsOf(PublishAll(s, [item], _ => Delivered, 0).brokers, before.client.value)
               != Overlay(TopicsOf(s.brokers, before.client.value), [item])
  {
    before := State(Some("b"), "k", map["t" := "1"], map["b" := map["t" := "1"]]);
    sent := ("t", "2");
    item := if fate == Late then ("t", "1") else ("t", "2");
    var s := Publish(before, sent, fate);
    assert IsCached(s, item) && TopicsOf(s.brokers, "b")["t"] != item.1;
    assert PublishAll(s, [item], _ => Delivered, 0) == s;
    assert Overlay(TopicsOf(s.brokers, "b"), [item])["t"] == item.1;
  }
}
