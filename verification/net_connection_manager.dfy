/**
 * `NetConnectionManagerSystem::run` as a pure per-tick step over the live
 * connections. Each connection brings the batch of transport events its
 * private reader yields this tick; decoding is an abstract partial
 * function, and the system's effects (messages pushed to the inbound
 * queue, records updated, pings queued, entities deleted, counters) are
 * returned instead of performed.
 */
module NetConnectionManager {
  import opened Wrappers
  import opened Components
  import opened Time

  /** Keepalive period: a ping is due once more than this has passed. */
  const PING_INTERVAL_SECS: nat := 1

  const PING_INTERVAL: nat := PING_INTERVAL_SECS * NANOS_PER_SEC

  type Byte = bv8

  type Entity = nat

  /** The transport events the system distinguishes; every other kind is `OtherEvent`. */
  datatype NetEvent = Packet(content: seq<Byte>) | Connected | Disconnected | OtherEvent

  /**
   * One joined `(entity, NetConnection)` pair: its existing record if it has
   * one, the identifier and reader a fresh record would be built from, and
   * the events drained through its reader this tick.
   */
  datatype Connection = Connection(
    entity: Entity,
    netId: NetIdentifier,
    newReader: ReaderId,
    record: Option<NetConnectionModel>,
    events: seq<NetEvent>)

  /** The state the event loop of one connection carries. */
  datatype Drained<M> = Drained(messages: seq<M>, messagesCount: nat, disconnected: bool)

  /** The effect of one connection's part of a tick. */
  datatype ConnectionOutcome<M> = ConnectionOutcome(
    record: NetConnectionModel,
    messages: seq<M>,
    messagesCount: nat,
    pinged: bool,
    deleted: bool)

  /** The effect of a whole tick. */
  datatype TickResult<M> = TickResult(
    incoming: seq<M>,
    records: seq<NetConnectionModel>,
    deleted: set<Entity>,
    pinged: set<Entity>,
    count: nat,
    connectionCount: nat)

  // ---------------------------------------------------------------------------
  // Reference definitions, stated over a whole batch

  /** What one event contributes to the inbound queue. */
  function DecodedOf<M>(ev: NetEvent, decode: seq<Byte> -> Option<M>): seq<M> {
    match ev
    case Packet(bytes) =>
      (match decode(bytes)
       case Some(m) => [m]
       case None => [])
    case _ => []
  }

  /** The messages of a batch that decode, in event order. */
  function DecodedMessages<M>(events: seq<NetEvent>, decode: seq<Byte> -> Option<M>): seq<M> {
    if |events| == 0 then []
    else DecodedMessages(events[..|events| - 1], decode) + DecodedOf(events[|events| - 1], decode)
  }

  /** The number of messages that are not keepalive pings. */
  function NonPingCount<M>(messages: seq<M>, isPing: M -> bool): (n: nat)
    ensures n <= |messages|
  {
    if |messages| == 0 then 0
    else NonPingCount(messages[..|messages| - 1], isPing) + (if isPing(messages[|messages| - 1]) then 0 else 1)
  }

  predicate SawDisconnect(events: seq<NetEvent>) {
    exists i :: 0 <= i < |events| && events[i].Disconnected?
  }

  /** The record the system works on: the existing one, or a new one created now. */
  function RecordOf(c: Connection, now: Instant): (m: NetConnectionModel)
    ensures c.record.Some? ==> m == c.record.value
    ensures c.record.None? ==>
              && m.id == c.netId && m.reader == c.newReader
              && m.createdAt == now && m.lastPingedAt == now
              && m.lastAcknowledgedUpdate == None && |m.pingPongData.data| == 0
  {
    if c.record.Some? then c.record.value else NewNetConnectionModel(c.netId, c.newReader, now)
  }

  /** The strict keepalive test of the source. */
  predicate PingDue(m: NetConnectionModel, now: Instant)
    ensures PingDue(m, now) <==> m.lastPingedAt < now && now - m.lastPingedAt > PING_INTERVAL
  {
    m.lastPingedAt + PING_INTERVAL < now
  }

  lemma {:induction false} DecodedMessagesAppend<M>(a: seq<NetEvent>, b: seq<NetEvent>, decode: seq<Byte> -> Option<M>)
    ensures DecodedMessages(a + b, decode) == DecodedMessages(a, decode) + DecodedMessages(b, decode)
    decreases |b|
  {
    if |b| == 0 {
      assert a + b == a;
    } else {
      var b' := b[..|b| - 1];
      assert (a + b)[..|a + b| - 1] == a + b';
      assert (a + b)[|a + b| - 1] == b[|b| - 1];
      DecodedMessagesAppend(a, b', decode);
    }
  }

  lemma {:induction false} NonPingCountAppend<M>(a: seq<M>, b: seq<M>, isPing: M -> bool)
    ensures NonPingCount(a + b, isPing) == NonPingCount(a, isPing) + NonPingCount(b, isPing)
    decreases |b|
  {
    if |b| == 0 {
      assert a + b == a;
    } else {
      var b' := b[..|b| - 1];
      assert (a + b)[..|a + b| - 1] == a + b';
      assert (a + b)[|a + b| - 1] == b[|b| - 1];
      NonPingCountAppend(a, b', isPing);
    }
  }

  // ---------------------------------------------------------------------------
  // The event loop of one connection, as written

  /** One iteration of the `for ev in connection.received_events(..)` loop. */
  function DrainEvent<M>(st: Drained<M>, ev: NetEvent, decode: seq<Byte> -> Option<M>, isPing: M -> bool): (r: Drained<M>)
    ensures st.messages <= r.messages && |r.messages| <= |st.messages| + 1
    ensures st.messagesCount <= r.messagesCount <= st.messagesCount + |r.messages| - |st.messages|
    ensures r.disconnected == (st.disconnected || ev.Disconnected?)
    ensures !ev.Packet? ==> r.messages == st.messages
  {
    match ev
    case Packet(bytes) =>
      (match decode(bytes)
       case Some(m) =>
         Drained(st.messages + [m],
                 if isPing(m) then st.messagesCount else st.messagesCount + 1,
                 st.disconnected)
       case None => st)
    case Connected => st
    case Disconnected => st.(disconnected := true)
    case OtherEvent => st
  }

  /** The whole loop: `DrainEvent` folded over the batch from the first event on. */
  function DrainEvents<M>(st: Drained<M>, events: seq<NetEvent>, decode: seq<Byte> -> Option<M>, isPing: M -> bool): (r: Drained<M>)
    ensures st.messages <= r.messages && |r.messages| <= |st.messages| + |events|
    ensures st.messagesCount <= r.messagesCount <= st.messagesCount + |r.messages| - |st.messages|
    ensures st.disconnected ==> r.disconnected
    decreases |events|
  {
    if |events| == 0 then st
    else DrainEvents(DrainEvent(st, events[0], decode, isPing), events[1..], decode, isPing)
  }

  /**
   * The loop appends exactly the decodable messages in order, counts exactly
   * the non-ping ones, and raises the flag exactly when some event of the
   * batch is a disconnect.
   */
  lemma {:induction false} DrainEventsMeaning<M>(st: Drained<M>, events: seq<NetEvent>, decode: seq<Byte> -> Option<M>, isPing: M -> bool)
    ensures var ms := DecodedMessages(events, decode);
            DrainEvents(st, events, decode, isPing)
              == Drained(st.messages + ms,
                         st.messagesCount + NonPingCount(ms, isPing),
                         st.disconnected || SawDisconnect(events))
    decreases |events|
  {
    if |events| == 0 {
      assert st.messages + [] == st.messages;
    } else {
      var ev := events[0];
      var rest := events[1..];
      var st' := DrainEvent(st, ev, decode, isPing);
      assert DrainEvents(st, events, decode, isPing) == DrainEvents(st', rest, decode, isPing);
      var head := DecodedOf(ev, decode);
      var ms := DecodedMessages(rest, decode);
      DrainEventsMeaning(st', rest, decode, isPing);
      assert DrainEvents(st', rest, decode, isPing)
          == Drained(st'.messages + ms, st'.messagesCount + NonPingCount(ms, isPing),
                     st'.disconnected || SawDisconnect(rest));
      DrainEventMeaning(st, ev, decode, isPing);
      assert st'.messages == st.messages + head;
      assert st'.messagesCount == st.messagesCount + NonPingCount(head, isPing);
      assert st'.disconnected == (st.disconnected || ev.Disconnected?);
      DecodedMessagesCons(events, decode);
      assert DecodedMessages(events, decode) == head + ms;
      SawDisconnectCons(events);
      NonPingCountAppend(head, ms, isPing);
      assert NonPingCount(head + ms, isPing) == NonPingCount(head, isPing) + NonPingCount(ms, isPing);
      AppendAssoc(st.messages, head, ms);
      assert st'.messages + ms == st.messages + DecodedMessages(events, decode);
    }
  }

  /**
   * Sequence concatenation is associative. Stated apart so the solver sees
   * only this one fact where the drain proof regroups its messages.
   */
  lemma AppendAssoc<T>(a: seq<T>, b: seq<T>, c: seq<T>)
    ensures (a + b) + c == a + (b + c)
  {
  }

  /** One iteration appends the event's decoded message, counts it unless it is a ping, and notes a disconnect. */
  lemma DrainEventMeaning<M>(st: Drained<M>, ev: NetEvent, decode: seq<Byte> -> Option<M>, isPing: M -> bool)
    ensures var head := DecodedOf(ev, decode);
            DrainEvent(st, ev, decode, isPing)
              == Drained(st.messages + head,
                         st.messagesCount + NonPingCount(head, isPing),
                         st.disconnected || ev.Disconnected?)
  {
    var head := DecodedOf(ev, decode);
    if head == [] {
      assert st.messages + head == st.messages;
    } else {
      assert head[..0] == [];
    }
  }

  lemma {:induction false} DecodedMessagesCons<M>(events: seq<NetEvent>, decode: seq<Byte> -> Option<M>)
    requires |events| > 0
    ensures DecodedMessages(events, decode) == DecodedOf(events[0], decode) + DecodedMessages(events[1..], decode)
  {
    var one := [events[0]];
    assert events == one + events[1..];
    DecodedMessagesAppend(one, events[1..], decode);
    assert one[..|one| - 1] == [];
    assert DecodedMessages(one, decode) == DecodedMessages([], decode) + DecodedOf(events[0], decode);
  }

  lemma SawDisconnectCons(events: seq<NetEvent>)
    requires |events| > 0
    ensures SawDisconnect(events) == (events[0].Disconnected? || SawDisconnect(events[1..]))
  {
    var rest := events[1..];
    if SawDisconnect(rest) {
      var i :| 0 <= i < |rest| && rest[i].Disconnected?;
      assert events[i + 1].Disconnected?;
    }
    if SawDisconnect(events) && !events[0].Disconnected? {
      var i :| 0 <= i < |events| && events[i].Disconnected?;
      assert rest[i - 1].Disconnected?;
    }
  }

  /** The loop's starting state. */
  function NothingDrained<M>(): Drained<M> {
    Drained([], 0, false)
  }

  /** Draining a batch in two pieces is draining it in one. */
  lemma {:induction false} DrainEventsSplit<M>(st: Drained<M>, a: seq<NetEvent>, b: seq<NetEvent>, decode: seq<Byte> -> Option<M>, isPing: M -> bool)
    ensures DrainEvents(st, a + b, decode, isPing)
              == DrainEvents(DrainEvents(st, a, decode, isPing), b, decode, isPing)
    decreases |a|
  {
    if |a| == 0 {
      assert a + b == b;
    } else {
      assert (a + b)[0] == a[0];
      assert (a + b)[1..] == a[1..] + b;
      DrainEventsSplit(DrainEvent(st, a[0], decode, isPing), a[1..], b, decode, isPing);
    }
  }

  /**
   * An undecodable packet, a `Connected` event or an event of another kind
   * anywhere in a batch changes nothing: the loop goes on with the next event.
   */
  lemma InertEventIgnored<M>(a: seq<NetEvent>, ev: NetEvent, b: seq<NetEvent>, decode: seq<Byte> -> Option<M>, isPing: M -> bool)
    requires ev.Connected? || ev.OtherEvent? || (ev.Packet? && decode(ev.content).None?)
    ensures DrainEvents(NothingDrained(), a + [ev] + b, decode, isPing)
              == DrainEvents(NothingDrained(), a + b, decode, isPing)
  {
    var st: Drained<M> := NothingDrained();
    DrainEventsSplit(st, a + [ev], b, decode, isPing);
    DrainEventsSplit(st, a, [ev], decode, isPing);
    DrainEventsSplit(st, a, b, decode, isPing);
    var mid := DrainEvents(st, a, decode, isPing);
    assert DrainEvents(mid, [ev], decode, isPing) == DrainEvents(DrainEvent(mid, ev, decode, isPing), [], decode, isPing);
  }

  /**
   * A `Disconnected` event only raises the flag: the packets before it and
   * after it in the same batch are decoded and queued as if it were absent.
   */
  lemma DisconnectOnlyFlags<M>(a: seq<NetEvent>, b: seq<NetEvent>, decode: seq<Byte> -> Option<M>, isPing: M -> bool)
    ensures var without := DrainEvents(NothingDrained(), a + b, decode, isPing);
            DrainEvents(NothingDrained(), a + [Disconnected] + b, decode, isPing)
              == without.(disconnected := true)
  {
    var st: Drained<M> := NothingDrained();
    var mid := DrainEvents(st, a, decode, isPing);
    DrainEventsSplit(st, a + [Disconnected], b, decode, isPing);
    DrainEventsSplit(st, a, [Disconnected], decode, isPing);
    DrainEventsSplit(st, a, b, decode, isPing);
    assert DrainEvents(mid, [Disconnected], decode, isPing) == mid.(disconnected := true);
    DrainEventsMeaning(mid, b, decode, isPing);
    DrainEventsMeaning(mid.(disconnected := true), b, decode, isPing);
  }

  // ---------------------------------------------------------------------------
  // One connection

  /** The record after the keepalive check: `last_pinged_at` moves to `now` exactly when a ping is sent. */
  function KeepaliveRecord(c: Connection, now: Instant): (m: NetConnectionModel)
    ensures m.lastPingedAt == if PingDue(RecordOf(c, now), now) then now else RecordOf(c, now).lastPingedAt
    ensures m.(lastPingedAt := RecordOf(c, now).lastPingedAt) == RecordOf(c, now)
    ensures c.record.None? ==> m == NewNetConnectionModel(c.netId, c.newReader, now)
  {
    var record := RecordOf(c, now);
    if PingDue(record, now) then record.(lastPingedAt := now) else record
  }

  /**
   * The body of the per-connection loop: find or create the record, drain
   * the batch, send a keepalive if one is due, and flag the entity for
   * deletion when the batch held a disconnect.
   */
  function ConnectionStep<M>(c: Connection, now: Instant, decode: seq<Byte> -> Option<M>, isPing: M -> bool): (o: ConnectionOutcome<M>)
    ensures o.messages == DecodedMessages(c.events, decode)
    ensures o.messagesCount == NonPingCount(o.messages, isPing)
    ensures o.deleted <==> SawDisconnect(c.events)
    ensures o.pinged <==> PingDue(RecordOf(c, now), now)
    ensures o.record.lastPingedAt == if o.pinged then now else RecordOf(c, now).lastPingedAt
    ensures c.record.Some? ==> o.record.(lastPingedAt := c.record.value.lastPingedAt) == c.record.value
    ensures c.record.None? ==> !o.pinged && o.record == NewNetConnectionModel(c.netId, c.newReader, now)
    ensures o.record == KeepaliveRecord(c, now)
  {
    var record := RecordOf(c, now);
    var drained := DrainEvents(NothingDrained(), c.events, decode, isPing);
    DrainEventsMeaning(NothingDrained(), c.events, decode, isPing);
    var pinged := record.lastPingedAt + PING_INTERVAL < now;
    ConnectionOutcome(KeepaliveRecord(c, now), drained.messages, drained.messagesCount, pinged, drained.disconnected)
  }

  // ---------------------------------------------------------------------------
  // The whole tick

  /** The concatenation of the decoded batches of all connections, in join order. */
  function InboundMessages<M>(cs: seq<Connection>, decode: seq<Byte> -> Option<M>): seq<M> {
    if |cs| == 0 then []
    else InboundMessages(cs[..|cs| - 1], decode) + DecodedMessages(cs[|cs| - 1].events, decode)
  }

  /** The non-ping messages of one connection's batch. */
  function MessagesCount<M>(c: Connection, decode: seq<Byte> -> Option<M>, isPing: M -> bool): nat {
    NonPingCount(DecodedMessages(c.events, decode), isPing)
  }

  /** The sum of the per-connection message counts. */
  function TotalCount<M>(cs: seq<Connection>, decode: seq<Byte> -> Option<M>, isPing: M -> bool): nat {
    if |cs| == 0 then 0
    else TotalCount(cs[..|cs| - 1], decode, isPing) + MessagesCount(cs[|cs| - 1], decode, isPing)
  }

  /** The number of connections that delivered at least one non-ping message. */
  function ActiveCount<M>(cs: seq<Connection>, decode: seq<Byte> -> Option<M>, isPing: M -> bool): (n: nat)
    ensures n <= |cs|
  {
    if |cs| == 0 then 0
    else ActiveCount(cs[..|cs| - 1], decode, isPing) + (if MessagesCount(cs[|cs| - 1], decode, isPing) > 0 then 1 else 0)
  }

  /** The entities whose batch held a disconnect. */
  function DroppedEntities(cs: seq<Connection>): set<Entity> {
    if |cs| == 0 then {}
    else DroppedEntities(cs[..|cs| - 1]) + (if SawDisconnect(cs[|cs| - 1].events) then {cs[|cs| - 1].entity} else {})
  }

  /** The entities whose keepalive is due. */
  function PingedEntities(cs: seq<Connection>, now: Instant): set<Entity> {
    if |cs| == 0 then {}
    else PingedEntities(cs[..|cs| - 1], now) + (if PingDue(RecordOf(cs[|cs| - 1], now), now) then {cs[|cs| - 1].entity} else {})
  }

  lemma {:induction false} DroppedEntitiesMeaning(cs: seq<Connection>)
    ensures forall e :: e in DroppedEntities(cs) <==>
              exists i :: 0 <= i < |cs| && cs[i].entity == e && SawDisconnect(cs[i].events)
    decreases |cs|
  {
    if |cs| > 0 {
      var init := cs[..|cs| - 1];
      DroppedEntitiesMeaning(init);
      forall e
        ensures e in DroppedEntities(cs) <==>
                exists i :: 0 <= i < |cs| && cs[i].entity == e && SawDisconnect(cs[i].events)
      {
        if e in DroppedEntities(init) {
          var i :| 0 <= i < |init| && init[i].entity == e && SawDisconnect(init[i].events);
          assert cs[i] == init[i];
        }
        if exists i :: 0 <= i < |cs| && cs[i].entity == e && SawDisconnect(cs[i].events) {
          var i :| 0 <= i < |cs| && cs[i].entity == e && SawDisconnect(cs[i].events);
          if i < |init| {
            assert init[i] == cs[i];
          }
        }
      }
    }
  }

  lemma {:induction false} PingedEntitiesMeaning(cs: seq<Connection>, now: Instant)
    ensures forall e :: e in PingedEntities(cs, now) <==>
              exists i :: 0 <= i < |cs| && cs[i].entity == e && PingDue(RecordOf(cs[i], now), now)
    decreases |cs|
  {
    if |cs| > 0 {
      var init := cs[..|cs| - 1];
      PingedEntitiesMeaning(init, now);
      forall e
        ensures e in PingedEntities(cs, now) <==>
                exists i :: 0 <= i < |cs| && cs[i].entity == e && PingDue(RecordOf(cs[i], now), now)
      {
        if e in PingedEntities(init, now) {
          var i :| 0 <= i < |init| && init[i].entity == e && PingDue(RecordOf(init[i], now), now);
          assert cs[i] == init[i];
        }
        if exists i :: 0 <= i < |cs| && cs[i].entity == e && PingDue(RecordOf(cs[i], now), now) {
          var i :| 0 <= i < |cs| && cs[i].entity == e && PingDue(RecordOf(cs[i], now), now);
          if i < |init| {
            assert init[i] == cs[i];
          }
        }
      }
    }
  }

  /** The record of every connection after the keepalive check, in join order. */
  function KeptRecords(cs: seq<Connection>, now: Instant): seq<NetConnectionModel> {
    if |cs| == 0 then []
    else KeptRecords(cs[..|cs| - 1], now) + [KeepaliveRecord(cs[|cs| - 1], now)]
  }

  lemma {:induction false} KeptRecordsMeaning(cs: seq<Connection>, now: Instant)
    ensures |KeptRecords(cs, now)| == |cs|
    ensures forall i :: 0 <= i < |cs| ==> KeptRecords(cs, now)[i] == KeepaliveRecord(cs[i], now)
    decreases |cs|
  {
    if |cs| > 0 {
      var init := cs[..|cs| - 1];
      KeptRecordsMeaning(init, now);
      var recs := KeptRecords(cs, now);
      var prev := KeptRecords(init, now);
      assert recs == prev + [KeepaliveRecord(cs[|cs| - 1], now)];
      forall i | 0 <= i < |cs|
        ensures recs[i] == KeepaliveRecord(cs[i], now)
      {
        if i < |init| {
          assert cs[i] == init[i];
          assert recs[i] == prev[i];
        }
      }
    }
  }

  /** One pass of the per-connection loop body over the accumulated effects. */
  function Absorb<M>(acc: TickResult<M>, c: Connection, now: Instant,
                     decode: seq<Byte> -> Option<M>, isPing: M -> bool): (r: TickResult<M>)
    ensures r.incoming == acc.incoming + DecodedMessages(c.events, decode)
    ensures r.records == acc.records + [KeepaliveRecord(c, now)]
    ensures r.deleted == acc.deleted + (if SawDisconnect(c.events) then {c.entity} else {})
    ensures r.pinged == acc.pinged + (if PingDue(RecordOf(c, now), now) then {c.entity} else {})
    ensures r.count == acc.count + MessagesCount(c, decode, isPing)
    ensures r.connectionCount == acc.connectionCount + (if MessagesCount(c, decode, isPing) > 0 then 1 else 0)
  {
    var o := ConnectionStep(c, now, decode, isPing);
    TickResult(
      acc.incoming + o.messages,
      acc.records + [o.record],
      acc.deleted + (if o.deleted then {c.entity} else {}),
      acc.pinged + (if o.pinged then {c.entity} else {}),
      if o.messagesCount > 0 then acc.count + o.messagesCount else acc.count,
      if o.messagesCount > 0 then acc.connectionCount + 1 else acc.connectionCount)
  }

  /** The effects of the loop body run over `cs` in join order. */
  function TickOver<M>(incoming: seq<M>, cs: seq<Connection>, now: Instant,
                       decode: seq<Byte> -> Option<M>, isPing: M -> bool): (r: TickResult<M>)
    ensures incoming <= r.incoming
    ensures |r.records| == |cs|
    ensures r.connectionCount <= |cs| && r.connectionCount <= r.count
  {
    if |cs| == 0 then TickResult(incoming, [], {}, {}, 0, 0)
    else Absorb(TickOver(incoming, cs[..|cs| - 1], now, decode, isPing), cs[|cs| - 1], now, decode, isPing)
  }

  lemma {:induction false} TickOverIncoming<M>(incoming: seq<M>, cs: seq<Connection>, now: Instant,
                                               decode: seq<Byte> -> Option<M>, isPing: M -> bool)
    ensures TickOver(incoming, cs, now, decode, isPing).incoming == incoming + InboundMessages(cs, decode)
    decreases |cs|
  {
    if |cs| > 0 {
      var init := cs[..|cs| - 1];
      var last := cs[|cs| - 1];
      TickOverIncoming(incoming, init, now, decode, isPing);
      var prev := TickOver(incoming, init, now, decode, isPing);
      var o := ConnectionStep(last, now, decode, isPing);
      assert TickOver(incoming, cs, now, decode, isPing) == Absorb(prev, last, now, decode, isPing);
      assert Absorb(prev, last, now, decode, isPing).incoming == prev.incoming + o.messages;
      assert o.messages == DecodedMessages(last.events, decode);
      assert InboundMessages(cs, decode) == InboundMessages(init, decode) + DecodedMessages(last.events, decode);
      assert (incoming + InboundMessages(init, decode)) + o.messages
          == incoming + (InboundMessages(init, decode) + o.messages);
    }
  }

  lemma {:induction false} TickOverRecords<M>(incoming: seq<M>, cs: seq<Connection>, now: Instant,
                                              decode: seq<Byte> -> Option<M>, isPing: M -> bool)
    ensures TickOver(incoming, cs, now, decode, isPing).records == KeptRecords(cs, now)
    decreases |cs|
  {
    if |cs| > 0 {
      var init := cs[..|cs| - 1];
      var last := cs[|cs| - 1];
      TickOverRecords(incoming, init, now, decode, isPing);
      var prev := TickOver(incoming, init, now, decode, isPing);
      assert TickOver(incoming, cs, now, decode, isPing) == Absorb(prev, last, now, decode, isPing);
      assert ConnectionStep(last, now, decode, isPing).record == KeepaliveRecord(last, now);
    }
  }

  lemma {:induction false} TickOverSets<M>(incoming: seq<M>, cs: seq<Connection>, now: Instant,
                                           decode: seq<Byte> -> Option<M>, isPing: M -> bool)
    ensures var r := TickOver(incoming, cs, now, decode, isPing);
            r.deleted == DroppedEntities(cs) && r.pinged == PingedEntities(cs, now)
    decreases |cs|
  {
    if |cs| > 0 {
      TickOverSets(incoming, cs[..|cs| - 1], now, decode, isPing);
    }
  }

  lemma {:induction false} TickOverCounters<M>(incoming: seq<M>, cs: seq<Connection>, now: Instant,
                                               decode: seq<Byte> -> Option<M>, isPing: M -> bool)
    ensures var r := TickOver(incoming, cs, now, decode, isPing);
            r.count == TotalCount(cs, decode, isPing) && r.connectionCount == ActiveCount(cs, decode, isPing)
    decreases |cs|
  {
    if |cs| > 0 {
      TickOverCounters(incoming, cs[..|cs| - 1], now, decode, isPing);
    }
  }

  /**
   * `NetConnectionManagerSystem::run`: every connection's decodable messages
   * are appended to the inbound queue in order, records are found or
   * created and updated, a ping goes to each connection whose keepalive is
   * due (whether or not it is being dropped), each connection that saw a
   * disconnect is deleted after its batch, and the counters report the
   * non-ping messages.
   */
  method Run<M>(incoming: seq<M>, connections: seq<Connection>, now: Instant,
                decode: seq<Byte> -> Option<M>, isPing: M -> bool)
    returns (r: TickResult<M>)
    ensures r.incoming == incoming + InboundMessages(connections, decode)
    ensures |r.records| == |connections|
    ensures forall i :: 0 <= i < |connections| ==> r.records[i] == KeepaliveRecord(connections[i], now)
    ensures forall e :: e in r.deleted <==>
              exists i :: 0 <= i < |connections| && connections[i].entity == e && SawDisconnect(connections[i].events)
    ensures forall e :: e in r.pinged <==>
              exists i :: 0 <= i < |connections| && connections[i].entity == e && PingDue(RecordOf(connections[i], now), now)
    ensures r.count == TotalCount(connections, decode, isPing)
    ensures r.connectionCount == ActiveCount(connections, decode, isPing)
  {
    r := TickResult(incoming, [], {}, {}, 0, 0);
    var i := 0;
    while i < |connections|
      invariant 0 <= i <= |connections|
      invariant r == TickOver(incoming, connections[..i], now, decode, isPing)
    {
      assert connections[..i + 1][..i] == connections[..i];
      r := Absorb(r, connections[i], now, decode, isPing);
      i := i + 1;
    }
    assert connections[..i] == connections;
    TickOverIncoming(incoming, connections, now, decode, isPing);
    TickOverRecords(incoming, connections, now, decode, isPing);
    KeptRecordsMeaning(connections, now);
    TickOverSets(incoming, connections, now, decode, isPing);
    TickOverCounters(incoming, connections, now, decode, isPing);
    DroppedEntitiesMeaning(connections);
    PingedEntitiesMeaning(connections, now);
  }

  /** A connection being dropped this tick still gets its keepalive when one is due. */
  lemma PingIndependentOfDisconnect<M>(c: Connection, now: Instant, decode: seq<Byte> -> Option<M>, isPing: M -> bool)
    ensures var withDisconnect := c.(events := c.events + [Disconnected]);
            && ConnectionStep(withDisconnect, now, decode, isPing).pinged == ConnectionStep(c, now, decode, isPing).pinged
            && ConnectionStep(withDisconnect, now, decode, isPing).deleted
  {
    var c' := c.(events := c.events + [Disconnected]);
    assert c'.events[|c.events|].Disconnected?;
  }

  /** `connection_count` never exceeds `count`: each counted connection gave at least one message. */
  lemma {:induction false} ActiveCountBelowTotal<M>(cs: seq<Connection>, decode: seq<Byte> -> Option<M>, isPing: M -> bool)
    ensures ActiveCount(cs, decode, isPing) <= TotalCount(cs, decode, isPing)
    decreases |cs|
  {
    if |cs| > 0 {
      ActiveCountBelowTotal(cs[..|cs| - 1], decode, isPing);
    }
  }
}
