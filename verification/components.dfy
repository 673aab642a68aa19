/**
 * The per-connection records of the core library's ECS components: the
 * ping/pong latency window (`PingPongData`) and the connection record
 * (`NetConnectionModel`) that owns it.
 *
 * Frame numbers are `u64` values. `Instant`s are modelled as a count of
 * nanoseconds on one monotonic clock, passed in by the caller.
 */
module Components {
  import opened Wrappers
  import opened UInt
  import opened Time

  /** The most samples the ping/pong window keeps. */
  const PING_PONG_STORAGE_LIMIT: nat := 20

  /** Opaque network identifier; the model only compares these for equality. */
  type NetIdentifier = nat

  /** Opaque handle of a connection's private position in its event stream. */
  type ReaderId = nat

  /** One ping and, once its pong has arrived, what the pong told us. */
  datatype PingPong = PingPong(
    pingId: NetIdentifier,
    sentPingFrame: uint64,
    receivedPongFrame: Option<uint64>,
    estimatedPeerFrameNumber: Option<uint64>)

  /** The bounded FIFO of samples, oldest first. Its field is private in the source. */
  datatype PingPongData = PingPongData(data: seq<PingPong>)

  datatype NetConnectionModel = NetConnectionModel(
    id: NetIdentifier,
    reader: ReaderId,
    createdAt: Instant,
    lastPingedAt: Instant,
    lastAcknowledgedUpdate: Option<uint64>,
    pingPongData: PingPongData)

  /** A sample counts towards the average once its peer frame has been estimated. */
  predicate Resolved(p: PingPong) {
    p.estimatedPeerFrameNumber.Some?
  }

  /** An estimated sample always has its pong frame recorded as well. */
  predicate SampleWellFormed(p: PingPong) {
    Resolved(p) ==> p.receivedPongFrame.Some?
  }

  predicate WellFormed(s: seq<PingPong>) {
    forall i :: 0 <= i < |s| ==> SampleWellFormed(s[i])
  }

  /**
   * What every window built by `new`, `add_ping` and `add_pong` satisfies:
   * bounded by the storage limit, and no estimate without a pong frame
   * (so the `expect` in the average never fires).
   */
  predicate Valid(d: PingPongData) {
    |d.data| <= PING_PONG_STORAGE_LIMIT && WellFormed(d.data)
  }

  // ---------------------------------------------------------------------------
  // Construction

  /** `PingPongData::new`: an empty window. */
  function NewPingPongData(): (d: PingPongData)
    ensures |d.data| == 0
    ensures Valid(d)
  {
    PingPongData([])
  }

  /**
   * `NetConnectionModel::new`, with the clock reading `now` standing for
   * both calls to `Instant::now()`.
   */
  function NewNetConnectionModel(id: NetIdentifier, reader: ReaderId, now: Instant): (m: NetConnectionModel)
    ensures m.id == id && m.reader == reader
    ensures m.createdAt == now && m.lastPingedAt == now
    ensures m.lastAcknowledgedUpdate == None
    ensures |m.pingPongData.data| == 0 && Valid(m.pingPongData)
  {
    NetConnectionModel(id, reader, now, now, None, NewPingPongData())
  }

  // ---------------------------------------------------------------------------
  // add_ping

  /** The fresh, unanswered sample `add_ping` pushes. */
  function Unanswered(pingId: NetIdentifier, frameNumber: uint64): PingPong {
    PingPong(pingId, frameNumber, None, None)
  }

  /**
   * `PingPongData::add_ping`: evicts the oldest sample when the window is
   * full, then appends an unanswered sample at the back.
   */
  function AddPing(d: PingPongData, pingId: NetIdentifier, frameNumber: uint64): (r: PingPongData)
    ensures |d.data| == PING_PONG_STORAGE_LIMIT ==>
              |r.data| == PING_PONG_STORAGE_LIMIT && r.data[..|r.data| - 1] == d.data[1..]
    ensures |d.data| != PING_PONG_STORAGE_LIMIT ==>
              |r.data| == |d.data| + 1 && r.data[..|r.data| - 1] == d.data
    ensures |r.data| > 0 && r.data[|r.data| - 1] == Unanswered(pingId, frameNumber)
    ensures Valid(d) ==> Valid(r)
  {
    var kept := if |d.data| == PING_PONG_STORAGE_LIMIT then d.data[1..] else d.data;
    var u := Unanswered(pingId, frameNumber);
    var s := kept + [u];
    assert s[..|s| - 1] == kept;
    assert WellFormed(d.data) ==> WellFormed(s) by {
      if WellFormed(d.data) {
        forall i | 0 <= i < |s|
          ensures SampleWellFormed(s[i])
        {
          if i < |kept| {
            assert s[i] == kept[i];
            if |d.data| == PING_PONG_STORAGE_LIMIT {
              assert kept[i] == d.data[i + 1];
            }
          }
        }
      }
    }
    PingPongData(s)
  }

  /** The last `n` elements of `s` (all of `s` when it is shorter). */
  function Newest<T>(s: seq<T>, n: nat): (r: seq<T>)
    ensures |r| <= n && |r| <= |s|
  {
    if |s| <= n then s else s[|s| - n..]
  }

  /** The unanswered samples a run of `(ping_id, frame)` pings would create. */
  function Samples(pings: seq<(NetIdentifier, uint64)>): (r: seq<PingPong>)
    ensures |r| == |pings|
  {
    if |pings| == 0 then []
    else Samples(pings[..|pings| - 1]) + [Unanswered(pings[|pings| - 1].0, pings[|pings| - 1].1)]
  }

  /** `add_ping` applied once per element of `pings`, in order. */
  function AddPings(d: PingPongData, pings: seq<(NetIdentifier, uint64)>): PingPongData {
    if |pings| == 0 then d
    else
      var last := pings[|pings| - 1];
      AddPing(AddPings(d, pings[..|pings| - 1]), last.0, last.1)
  }

  /** One `add_ping` keeps exactly the newest `LIMIT` of the old samples plus the new one. */
  lemma AddPingKeepsNewest(s: seq<PingPong>, p: PingPong, id: NetIdentifier, frame: uint64)
    requires |s| <= PING_PONG_STORAGE_LIMIT
    requires p == Unanswered(id, frame)
    ensures AddPing(PingPongData(s), id, frame).data == Newest(s + [p], PING_PONG_STORAGE_LIMIT)
  {
    var r := AddPing(PingPongData(s), id, frame).data;
    if |s| == PING_PONG_STORAGE_LIMIT {
      assert r == s[1..] + [p];
      assert (s + [p])[1..] == s[1..] + [p];
    } else {
      assert r == s + [p];
    }
  }

  /**
   * FIFO behaviour: starting from a window `d` that respects the limit,
   * any run of pings leaves the newest `LIMIT` samples of the old contents
   * followed by the new pings, in order.
   */
  lemma {:induction false} AddPingsKeepsNewest(d: PingPongData, pings: seq<(NetIdentifier, uint64)>)
    requires |d.data| <= PING_PONG_STORAGE_LIMIT
    ensures AddPings(d, pings).data == Newest(d.data + Samples(pings), PING_PONG_STORAGE_LIMIT)
    decreases |pings|
  {
    if |pings| == 0 {
      assert d.data + Samples(pings) == d.data;
    } else {
      var init := pings[..|pings| - 1];
      var last := pings[|pings| - 1];
      var p := Unanswered(last.0, last.1);
      AddPingsKeepsNewest(d, init);
      var x := d.data + Samples(init);
      var mid := Newest(x, PING_PONG_STORAGE_LIMIT);
      assert AddPings(d, init).data == mid;
      AddPingKeepsNewest(mid, p, last.0, last.1);
      assert d.data + Samples(pings) == x + [p];
      NewestOfSnoc(x, p, PING_PONG_STORAGE_LIMIT);
    }
  }

  lemma NewestOfSnoc<T>(x: seq<T>, p: T, n: nat)
    requires n > 0
    ensures Newest(Newest(x, n) + [p], n) == Newest(x + [p], n)
  {
    if |x| < n {
    } else if |x| == n {
    } else {
      assert Newest(x, n) + [p] == (x + [p])[|x| - n..];
      assert (x + [p])[|x| - n..][1..] == (x + [p])[|x| + 1 - n..];
    }
  }

  /** Pings never break the window invariant. */
  lemma {:induction false} AddPingsValid(d: PingPongData, pings: seq<(NetIdentifier, uint64)>)
    requires Valid(d)
    ensures Valid(AddPings(d, pings))
    decreases |pings|
  {
    if |pings| > 0 {
      AddPingsValid(d, pings[..|pings| - 1]);
    }
  }

  /** Starting from the empty window, the window always holds the newest `LIMIT` pings. */
  lemma {:induction false} WindowHoldsNewestPings(pings: seq<(NetIdentifier, uint64)>)
    ensures AddPings(NewPingPongData(), pings).data == Newest(Samples(pings), PING_PONG_STORAGE_LIMIT)
    ensures Valid(AddPings(NewPingPongData(), pings))
  {
    AddPingsKeepsNewest(NewPingPongData(), pings);
    assert NewPingPongData().data + Samples(pings) == Samples(pings);
    AddPingsValid(NewPingPongData(), pings);
  }

  // ---------------------------------------------------------------------------
  // add_pong

  /** `iter().find(|p| p.ping_id == ping_id)`: the index of the first matching sample. */
  function FindPing(s: seq<PingPong>, pingId: NetIdentifier): (k: Option<nat>)
    ensures k.Some? ==> k.value < |s| && s[k.value].pingId == pingId
    ensures k.Some? ==> forall j :: 0 <= j < k.value ==> s[j].pingId != pingId
    ensures k.None? ==> forall j :: 0 <= j < |s| ==> s[j].pingId != pingId
  {
    if |s| == 0 then None
    else if s[0].pingId == pingId then Some(0)
    else
      match FindPing(s[1..], pingId)
      case None => None
      case Some(k) => Some(k + 1)
  }

  /** Half the round trip, in frames; zero when the pong frame is not after the ping frame. */
  function OneWayLatency(sentPingFrame: uint64, receivedPongFrame: uint64): (r: uint64)
    ensures 2 * r <= receivedPongFrame
    ensures sentPingFrame <= receivedPongFrame ==>
              2 * r <= receivedPongFrame - sentPingFrame <= 2 * r + 1
    ensures receivedPongFrame <= sentPingFrame ==> r == 0
  {
    SaturatingSub(receivedPongFrame, sentPingFrame) / 2
  }

  /**
   * The sum `peer_frame_number + oneway_latency` in `add_pong` fits in a
   * `u64` (otherwise a debug build panics on overflow).
   */
  predicate PongFits(d: PingPongData, pingId: NetIdentifier, peerFrameNumber: uint64, frameNumber: uint64) {
    match FindPing(d.data, pingId)
    case None => true
    case Some(k) => peerFrameNumber + OneWayLatency(d.data[k].sentPingFrame, frameNumber) <= UINT64_MAX
  }

  /**
   * `PingPongData::add_pong`: resolves the first sample with a matching id,
   * recording the local frame of receipt and the estimated peer frame; an
   * unmatched pong changes nothing.
   */
  function AddPong(d: PingPongData, pingId: NetIdentifier, peerFrameNumber: uint64, frameNumber: uint64): (r: PingPongData)
    requires PongFits(d, pingId, peerFrameNumber, frameNumber)
    ensures |r.data| == |d.data|
    ensures FindPing(d.data, pingId).None? ==> r == d
    ensures FindPing(d.data, pingId).Some? ==>
              var k := FindPing(d.data, pingId).value;
              && r.data[k].pingId == d.data[k].pingId
              && r.data[k].sentPingFrame == d.data[k].sentPingFrame
              && r.data[k].receivedPongFrame == Some(frameNumber)
              && r.data[k].estimatedPeerFrameNumber
                   == Some(peerFrameNumber + OneWayLatency(d.data[k].sentPingFrame, frameNumber))
              && forall j :: 0 <= j < |d.data| && j != k ==> r.data[j] == d.data[j]
    ensures Valid(d) ==> Valid(r)
  {
    match FindPing(d.data, pingId)
    case None => d
    case Some(k) =>
      var p := d.data[k];
      var estimate := peerFrameNumber + OneWayLatency(p.sentPingFrame, frameNumber);
      PingPongData(d.data[k := p.(receivedPongFrame := Some(frameNumber),
                                  estimatedPeerFrameNumber := Some(estimate))])
  }

  /**
   * A ping whose id is not in the window, answered by a pong, becomes the
   * newest sample, resolved with the half-round-trip estimate; the older
   * samples that survive the ping are left as they were.
   */
  lemma PingThenPong(d: PingPongData, pingId: NetIdentifier, sent: uint64, peer: uint64, received: uint64)
    requires FindPing(d.data, pingId).None?
    requires peer + OneWayLatency(sent, received) <= UINT64_MAX
    ensures PongFits(AddPing(d, pingId, sent), pingId, peer, received)
    ensures var pinged := AddPing(d, pingId, sent).data;
            AddPong(AddPing(d, pingId, sent), pingId, peer, received).data
              == pinged[..|pinged| - 1] + [PingPong(pingId, sent, Some(received), Some(peer + OneWayLatency(sent, received)))]
  {
    var pinged := AddPing(d, pingId, sent);
    var n := |pinged.data|;
    NewPingMatchesAtBack(d, pingId, sent);
    var r := AddPong(pinged, pingId, peer, received);
    var expected := pinged.data[..n - 1] + [PingPong(pingId, sent, Some(received), Some(peer + OneWayLatency(sent, received)))];
    assert |r.data| == |expected|;
    forall j | 0 <= j < n
      ensures r.data[j] == expected[j]
    {
      if j < n - 1 {
        assert r.data[j] == pinged.data[j];
      }
    }
  }

  /** After pinging with an id absent from the window, a pong with that id matches the new sample. */
  lemma NewPingMatchesAtBack(d: PingPongData, pingId: NetIdentifier, sent: uint64)
    requires FindPing(d.data, pingId).None?
    ensures var s := AddPing(d, pingId, sent).data;
            FindPing(s, pingId) == Some(|s| - 1) && s[|s| - 1] == Unanswered(pingId, sent)
  {
    var s := AddPing(d, pingId, sent).data;
    forall j | 0 <= j < |s| - 1
      ensures s[j].pingId != pingId
    {
      if |d.data| == PING_PONG_STORAGE_LIMIT {
        assert s[j] == s[..|s| - 1][j] == d.data[1..][j] == d.data[j + 1];
      } else {
        assert s[j] == s[..|s| - 1][j] == d.data[j];
      }
    }
    FindPingLast(s, pingId);
  }

  /** A window whose only sample with the id is the newest one matches at the back. */
  lemma FindPingLast(s: seq<PingPong>, pingId: NetIdentifier)
    requires |s| > 0 && s[|s| - 1].pingId == pingId
    requires forall j :: 0 <= j < |s| - 1 ==> s[j].pingId != pingId
    ensures FindPing(s, pingId) == Some(|s| - 1)
  {
  }

  /** The worked example: ping sent at frame 100, pong at 110 reporting peer frame 50. */
  lemma PingPongExample()
    ensures var d := AddPong(AddPing(NewPingPongData(), 7, 100), 7, 50, 110);
            && d.data == [PingPong(7, 100, Some(110), Some(55))]
            && ResolvedCount(d.data) == 1
            && LagSum(d.data) == 55
  {
    var pinged := AddPing(NewPingPongData(), 7, 100);
    assert pinged.data == [Unanswered(7, 100)];
    assert FindPing(pinged.data, 7) == Some(0);
    var d := AddPong(pinged, 7, 50, 110);
    assert d.data == [PingPong(7, 100, Some(110), Some(55))];
    assert d.data[..0] == [];
  }

  // ---------------------------------------------------------------------------
  // average_lagging_behind

  /**
   * How far the peer lags behind us according to one resolved sample. The
   * pong frame of a resolved sample is present in every well-formed window,
   * which is where the average reads it.
   */
  function Lag(p: PingPong): (r: uint64)
    requires Resolved(p)
    ensures SampleWellFormed(p) && p.estimatedPeerFrameNumber.value <= p.receivedPongFrame.value ==>
              r + p.estimatedPeerFrameNumber.value == p.receivedPongFrame.value
    ensures SampleWellFormed(p) && p.receivedPongFrame.value < p.estimatedPeerFrameNumber.value ==> r == 0
  {
    SaturatingSub(p.receivedPongFrame.GetOr(0), p.estimatedPeerFrameNumber.value)
  }

  /** The number of resolved samples. */
  function ResolvedCount(s: seq<PingPong>): (n: nat)
    ensures n <= |s|
  {
    if |s| == 0 then 0
    else ResolvedCount(s[..|s| - 1]) + (if Resolved(s[|s| - 1]) then 1 else 0)
  }

  /** The exact (unbounded) sum of the lags of the resolved samples. */
  function LagSum(s: seq<PingPong>): nat
  {
    if |s| == 0 then 0
    else
      var last := s[|s| - 1];
      LagSum(s[..|s| - 1]) + (if Resolved(last) then Lag(last) else 0)
  }

  lemma {:induction false} LagSumOfPrefix(s: seq<PingPong>, i: nat)
    requires i <= |s|
    ensures LagSum(s[..i]) <= LagSum(s)
    decreases |s|
  {
    if i < |s| {
      assert s[..|s| - 1][..i] == s[..i];
      LagSumOfPrefix(s[..|s| - 1], i);
    } else {
      assert s[..i] == s;
    }
  }

  /** One step of the fold over the samples, from the prefix `s[..i]` to `s[..i + 1]`. */
  lemma FoldStep(s: seq<PingPong>, i: nat)
    requires i < |s|
    ensures ResolvedCount(s[..i + 1]) == ResolvedCount(s[..i]) + (if Resolved(s[i]) then 1 else 0)
    ensures LagSum(s[..i + 1]) == LagSum(s[..i]) + (if Resolved(s[i]) then Lag(s[i]) else 0)
    ensures LagSum(s[..i + 1]) <= LagSum(s)
  {
    assert s[..i + 1][..i] == s[..i];
    assert s[..i + 1][i] == s[i];
    LagSumOfPrefix(s, i + 1);
  }

  /**
   * The fold of `average_lagging_behind`: the number of resolved samples
   * and the sum of their lags, accumulated in `u64`s. The second
   * precondition says the sum does not overflow.
   */
  method FoldPongs(s: seq<PingPong>) returns (pongsCount: uint64, lagSum: uint64)
    requires |s| <= PING_PONG_STORAGE_LIMIT && WellFormed(s)
    requires LagSum(s) <= UINT64_MAX
    ensures pongsCount == ResolvedCount(s)
    ensures lagSum == LagSum(s)
  {
    pongsCount := 0;
    lagSum := 0;
    var i := 0;
    while i < |s|
      invariant 0 <= i <= |s|
      invariant pongsCount == ResolvedCount(s[..i])
      invariant lagSum == LagSum(s[..i])
    {
      var p := s[i];
      FoldStep(s, i);
      if p.estimatedPeerFrameNumber.Some? {
        pongsCount := pongsCount + 1;
        lagSum := lagSum + SaturatingSub(p.receivedPongFrame.value, p.estimatedPeerFrameNumber.value);
      }
      i := i + 1;
    }
    assert s[..i] == s;
  }

  /**
   * `PingPongData::average_lagging_behind`: the integer mean lag of the
   * resolved samples; with none resolved, 0 while the window holds fewer
   * than half the limit and `u64::MAX` after that. The second precondition
   * says the fold's `u64` sum does not overflow.
   */
  method AverageLaggingBehind(d: PingPongData) returns (r: uint64)
    requires Valid(d)
    requires LagSum(d.data) <= UINT64_MAX
    ensures ResolvedCount(d.data) == 0 && |d.data| < PING_PONG_STORAGE_LIMIT / 2 ==> r == 0
    ensures ResolvedCount(d.data) == 0 && |d.data| >= PING_PONG_STORAGE_LIMIT / 2 ==> r == UINT64_MAX
    ensures ResolvedCount(d.data) > 0 ==> r == MeanLag(d.data)
  {
    var pongsCount, lagSum := FoldPongs(d.data);
    assert pongsCount == ResolvedCount(d.data) && lagSum == LagSum(d.data);
    if pongsCount == 0 {
      if |d.data| < PING_PONG_STORAGE_LIMIT / 2 {
        r := 0;
      } else {
        r := UINT64_MAX;
      }
    } else {
      MeanLagAtMostSum(d.data);
      r := lagSum / pongsCount;
    }
  }

  /** The integer mean lag of the resolved samples, rounded down. */
  function MeanLag(s: seq<PingPong>): nat
    requires ResolvedCount(s) > 0
  {
    LagSum(s) / ResolvedCount(s)
  }

  lemma MeanLagAtMostSum(s: seq<PingPong>)
    requires ResolvedCount(s) > 0
    ensures MeanLag(s) <= LagSum(s)
  {
    DivAtMost(LagSum(s), ResolvedCount(s));
  }

  lemma DivAtMost(a: nat, b: nat)
    requires b > 0
    ensures a / b <= a
  {
    var q := a / b;
    assert a == b * q + a % b;
    MulMonotone(q, 1, b);
  }

  lemma {:induction false} LagSumBelow(s: seq<PingPong>, bound: nat)
    requires forall i :: 0 <= i < |s| && Resolved(s[i]) ==> Lag(s[i]) <= bound
    ensures LagSum(s) <= ResolvedCount(s) * bound
    decreases |s|
  {
    if |s| > 0 {
      var init := s[..|s| - 1];
      var last := s[|s| - 1];
      assert forall i :: 0 <= i < |init| ==> init[i] == s[i];
      LagSumBelow(init, bound);
      var c := ResolvedCount(init);
      assert LagSum(s) == LagSum(init) + (if Resolved(last) then Lag(last) else 0);
      if Resolved(last) {
        assert Lag(last) <= bound;
        assert ResolvedCount(s) == c + 1;
        MulSucc(c, bound);
      } else {
        assert ResolvedCount(s) == c;
      }
    }
  }

  lemma {:induction false} LagSumAbove(s: seq<PingPong>, bound: nat)
    requires forall i :: 0 <= i < |s| && Resolved(s[i]) ==> bound <= Lag(s[i])
    ensures ResolvedCount(s) * bound <= LagSum(s)
    decreases |s|
  {
    if |s| > 0 {
      var init := s[..|s| - 1];
      var last := s[|s| - 1];
      assert forall i :: 0 <= i < |init| ==> init[i] == s[i];
      LagSumAbove(init, bound);
      var c := ResolvedCount(init);
      assert LagSum(s) == LagSum(init) + (if Resolved(last) then Lag(last) else 0);
      if Resolved(last) {
        assert bound <= Lag(last);
        assert ResolvedCount(s) == c + 1;
        MulSucc(c, bound);
      } else {
        assert ResolvedCount(s) == c;
      }
    }
  }

  lemma MulSucc(c: nat, b: nat)
    ensures (c + 1) * b == c * b + b
  {
  }

  /**
   * The mean reported once some sample is resolved lies between the
   * smallest and the largest lag of the resolved samples.
   */
  lemma MeanLagWithinRange(s: seq<PingPong>, low: nat, high: nat)
    requires ResolvedCount(s) > 0
    requires forall i :: 0 <= i < |s| && Resolved(s[i]) ==> low <= Lag(s[i]) <= high
    ensures low <= MeanLag(s) <= high
  {
    var n := ResolvedCount(s);
    LagSumBelow(s, high);
    LagSumAbove(s, low);
    DivBetween(LagSum(s), n, low, high);
  }

  lemma DivBetween(x: nat, n: nat, low: nat, high: nat)
    requires n > 0 && n * low <= x <= n * high
    ensures low <= x / n <= high
  {
    var q := x / n;
    assert x == n * q + x % n;
    if q > high {
      MulMonotone(n, high + 1, q);
      assert false;
    }
    if q < low {
      MulMonotone(n, q + 1, low);
      assert false;
    }
  }

  lemma MulMonotone(n: nat, a: nat, b: nat)
    requires a <= b
    ensures n * a <= n * b
  {
  }
}
