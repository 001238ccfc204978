/** Runs of channel steps — many sends, many receives, many registrations — and the
    ordering guarantees they give: each consumer sees the producer's values in order
    (FIFO), and every consumer sees all of them (broadcast). */
module Fifo {
  import opened RingModel

  /** `send` of each value in turn: the final state and each call's result. */
  function SendAll(s: Loop, vs: seq<int64>): (r: (Loop, seq<bool>))
    requires Valid(s)
    ensures Valid(r.0) && |r.1| == |vs|
    ensures r.0.readCursors == s.readCursors && r.0.nBufferSlots == s.nBufferSlots
    decreases |vs|
  {
    if vs == [] then (s, [])
    else
      var (s1, sent) := Send(s, vs[0]);
      var (s2, rest) := SendAll(s1, vs[1..]);
      (s2, [sent] + rest)
  }

  /** k calls of `receive` on consumer i: the final state and each call's result. */
  function ReceiveN(s: Loop, i: nat, k: nat): (r: (Loop, seq<Result<int64>>))
    requires Valid(s) && i < |s.readCursors|
    ensures Valid(r.0) && |r.0.readCursors| == |s.readCursors| && |r.1| == k
    decreases k
  {
    if k == 0 then (s, [])
    else
      var (got, s1) := Receive(s, i);
      var (s2, rest) := ReceiveN(s1, i, k - 1);
      (s2, [got] + rest)
  }

  /** m calls of `createOutPort`. */
  function AddPorts(s: Loop, m: nat): (r: Loop)
    requires Valid(s)
    ensures Valid(r) && |r.readCursors| == |s.readCursors| + m
    ensures r.buffer == s.buffer && r.writeCursor == s.writeCursor
    ensures r.minReadCursor == s.minReadCursor && r.nBufferSlots == s.nBufferSlots
    ensures forall k :: 0 <= k < |s.readCursors| ==> r.readCursors[k] == s.readCursors[k]
    ensures forall k :: |s.readCursors| <= k < |r.readCursors| ==> r.readCursors[k] == 0
    decreases m
  {
    if m == 0 then s else AddPorts(AddPort(s), m - 1)
  }

  /** The results of receiving each of vs successfully: each value wrapped in `Ok`. */
  function AllOk(vs: seq<int64>): (rs: seq<Result<int64>>)
    ensures |rs| == |vs|
  {
    if vs == [] then [] else [Ok(vs[0])] + AllOk(vs[1..])
  }

  /** Sends that fit in the ring are all accepted and appended, in order, to what every
      consumer has pending; the backpressure invariant holds throughout. */
  lemma {:induction false} SendAllBroadcasts(s: Loop, vs: seq<int64>)
    requires Valid(s) && Backpressured(s)
    requires s.writeCursor + |vs| <= s.minReadCursor + s.nBufferSlots
    ensures var (s', sent) := SendAll(s, vs);
      && (forall k :: 0 <= k < |sent| ==> sent[k])
      && Backpressured(s')
      && s'.writeCursor == s.writeCursor + |vs| && s'.minReadCursor == s.minReadCursor
      && (forall j :: 0 <= j < |s.readCursors| ==> Pending(s', j) == Pending(s, j) + vs)
    decreases |vs|
  {
    if vs != [] {
      var (s1, sent1) := Send(s, vs[0]);
      assert sent1 && s1.writeCursor == s.writeCursor + 1 && s1.minReadCursor == s.minReadCursor;
      SendKeepsBackpressure(s, vs[0]);
      SendAllBroadcasts(s1, vs[1..]);
      var (s', sent) := SendAll(s, vs);
      forall j | 0 <= j < |s.readCursors|
        ensures Pending(s', j) == Pending(s, j) + vs
      {
        SendBroadcasts(s, vs[0], j);
        assert Pending(s', j) == Pending(s, j) + [vs[0]] + vs[1..];
        assert [vs[0]] + vs[1..] == vs;
      }
    }
  }

  /** k receives on consumer i, with at least k values pending, return the k oldest pending
      values in order and remove exactly those; no other consumer is affected. */
  lemma {:induction false} ReceiveNDelivers(s: Loop, i: nat, k: nat)
    requires Valid(s) && i < |s.readCursors| && k <= |Pending(s, i)|
    ensures var (s', got) := ReceiveN(s, i, k);
      && got == AllOk(Pending(s, i)[..k])
      && Pending(s', i) == Pending(s, i)[k..]
      && s'.writeCursor == s.writeCursor && s'.buffer == s.buffer
      && (forall j :: 0 <= j < |s.readCursors| && j != i ==> Pending(s', j) == Pending(s, j))
    decreases k
  {
    if k > 0 {
      var p := Pending(s, i);
      var (got1, s1) := Receive(s, i);
      ReceivePops(s, i);
      ReceiveNDelivers(s1, i, k - 1);
      var (s', got) := ReceiveN(s, i, k);
      assert p[1..][..k - 1] == p[..k][1..];
      assert p[1..][k - 1..] == p[k..];
      assert got == [Ok(p[0])] + AllOk(p[..k][1..]);
    }
  }

  /** Single-consumer FIFO: starting from a state where consumer i has read everything,
      values that fit in the ring are all accepted, consumer i then receives exactly those
      values in the order they were sent, and afterwards it is not receivable and a further
      `receive` fails with "nothing to receive". */
  lemma FifoOrder(s: Loop, vs: seq<int64>, i: nat)
    requires Valid(s) && Backpressured(s) && i < |s.readCursors| && Pending(s, i) == []
    requires s.writeCursor + |vs| <= s.minReadCursor + s.nBufferSlots
    ensures var (s1, sent) := SendAll(s, vs);
      && (forall k :: 0 <= k < |sent| ==> sent[k])
      && var (s2, got) := ReceiveN(s1, i, |vs|);
      && got == AllOk(vs)
      && !IsReceivable(s2, i)
      && Receive(s2, i).0 == Failure(NothingToReceive)
  {
    var (s1, sent) := SendAll(s, vs);
    SendAllBroadcasts(s, vs);
    assert Pending(s1, i) == vs;
    ReceiveNDelivers(s1, i, |vs|);
    var (s2, got) := ReceiveN(s1, i, |vs|);
    assert vs[..|vs|] == vs;
    ReceivePops(s2, i);
  }

  /** Broadcast: two distinct consumers that have both read everything each receive every
      sent value, in order, whichever of them polls first. */
  lemma BroadcastFanOut(s: Loop, vs: seq<int64>, a: nat, b: nat)
    requires Valid(s) && Backpressured(s)
    requires a < |s.readCursors| && b < |s.readCursors| && a != b
    requires Pending(s, a) == [] && Pending(s, b) == []
    requires s.writeCursor + |vs| <= s.minReadCursor + s.nBufferSlots
    ensures var (s1, _) := SendAll(s, vs);
      var (s2, gotA) := ReceiveN(s1, a, |vs|);
      var (s3, gotB) := ReceiveN(s2, b, |vs|);
      && gotA == AllOk(vs) && gotB == AllOk(vs)
      && !IsReceivable(s3, a) && !IsReceivable(s3, b)
  {
    var (s1, _) := SendAll(s, vs);
    SendAllBroadcasts(s, vs);
    assert vs[..|vs|] == vs;
    ReceiveNDelivers(s1, a, |vs|);
    var (s2, gotA) := ReceiveN(s1, a, |vs|);
    assert Pending(s2, b) == vs;
    ReceiveNDelivers(s2, b, |vs|);
    var (s3, gotB) := ReceiveN(s2, b, |vs|);
    assert Pending(s3, a) == Pending(s2, a);
  }

  /** A new channel with m consumers registered before the first send: up to one ring of
      values is accepted, each consumer receives all of them in order, and the caches are
      in the backpressure state. */
  lemma FreshChannelDelivers(n: int32, contents: seq<int64>, m: nat, vs: seq<int64>, i: nat)
    requires CapacityContract(n) && |contents| == n as int
    requires i < m && |vs| <= n as int
    ensures var s0 := AddPorts(Init(n, contents), m);
      && Backpressured(s0)
      && var (s1, sent) := SendAll(s0, vs);
      && (forall k :: 0 <= k < |sent| ==> sent[k])
      && var (s2, got) := ReceiveN(s1, i, |vs|);
      && got == AllOk(vs) && !IsReceivable(s2, i)
  {
    var s0 := AddPorts(Init(n, contents), m);
    assert Pending(s0, i) == [];
    FifoOrder(s0, vs, i);
  }

  /** With no consumers registered, a new channel accepts exactly one ring of values: after
      nBufferSlots accepted sends every further `send` returns false and changes nothing. */
  lemma NoConsumersOverflow(n: int32, contents: seq<int64>, vs: seq<int64>, value: int64)
    requires CapacityContract(n) && |contents| == n as int && |vs| == n as int
    ensures var (s1, sent) := SendAll(Init(n, contents), vs);
      && (forall k :: 0 <= k < |sent| ==> sent[k])
      && Send(s1, value) == (s1, false)
  {
    var s0 := Init(n, contents);
    SendAllBroadcasts(s0, vs);
    var (s1, sent) := SendAll(s0, vs);
    NoConsumersStayFull(s1, value);
  }

  /** A consumer registered after the cached minimum has moved is lapped: at a full ring,
      the refresh drops the cached minimum to the newcomer's 0, the exact-equality full test
      then lets the producer through although it is more than one ring ahead, and the
      newcomer has more values pending than the ring holds. */
  lemma {:induction false} LateJoinerIsLapped(s: Loop, value: int64)
    requires Valid(s) && Backpressured(s) && Full(s) && s.minReadCursor > 0
    ensures var s1 := AddPort(s);
      var (s2, first) := Send(s1, value);
      var (s3, second) := Send(s2, value);
      && !first && second
      && s3.writeCursor > s3.minReadCursor + s3.nBufferSlots
      && |Pending(s3, |s.readCursors|)| > s3.nBufferSlots
  {
    var s1 := AddPort(s);
    assert s1.readCursors[|s.readCursors|] == 0;
    assert MinOf(s1.readCursors) == 0;
  }

  /** Once the producer is more than one ring ahead of the cached minimum, the exact-equality
      full test never holds again: every further send is accepted without a refresh, so the
      ring exerts no backpressure on any consumer from then on. */
  lemma {:induction false} LappedSendsAlwaysAccepted(s: Loop, vs: seq<int64>)
    requires Valid(s) && s.writeCursor > s.minReadCursor + s.nBufferSlots
    ensures var (s', sent) := SendAll(s, vs);
      && (forall k :: 0 <= k < |sent| ==> sent[k])
      && s'.writeCursor == s.writeCursor + |vs| && s'.minReadCursor == s.minReadCursor
      && (forall j :: 0 <= j < |s.readCursors| ==> |Pending(s', j)| == |Pending(s, j)| + |vs|)
    decreases |vs|
  {
    if vs != [] {
      var (s1, sent1) := Send(s, vs[0]);
      assert !Full(s) && sent1 && s1.writeCursor == s.writeCursor + 1;
      LappedSendsAlwaysAccepted(s1, vs[1..]);
    }
  }

  /** After a late registration at a full ring, backpressure is lost for good: past the two
      sends of LateJoinerIsLapped, any run of sends is accepted in full, and the newcomer
      falls further behind by one value per send. */
  lemma LateJoinerLosesBackpressure(s: Loop, value: int64, vs: seq<int64>)
    requires Valid(s) && Backpressured(s) && Full(s) && s.minReadCursor > 0
    ensures var s1 := AddPort(s);
      var (s2, _) := Send(s1, value);
      var (s3, _) := Send(s2, value);
      var (s4, sent) := SendAll(s3, vs);
      && (forall k :: 0 <= k < |sent| ==> sent[k])
      && |Pending(s4, |s.readCursors|)| > s4.nBufferSlots + |vs|
  {
    LateJoinerIsLapped(s, value);
    var s1 := AddPort(s);
    var (s2, _) := Send(s1, value);
    var (s3, _) := Send(s2, value);
    LappedSendsAlwaysAccepted(s3, vs);
  }

  /** One `receive` per entry of `sched`, each by the consumer the entry names: an arbitrary
      interleaving of the consumers' polls. */
  function ReceiveSchedule(s: Loop, sched: seq<nat>): (r: (Loop, seq<Result<int64>>))
    requires Valid(s) && forall k :: 0 <= k < |sched| ==> sched[k] < |s.readCursors|
    ensures Valid(r.0) && |r.0.readCursors| == |s.readCursors| && |r.1| == |sched|
    decreases |sched|
  {
    if sched == [] then (s, [])
    else
      var (got, s1) := Receive(s, sched[0]);
      var (s2, rest) := ReceiveSchedule(s1, sched[1..]);
      (s2, [got] + rest)
  }

  /** How many polls of consumer j the schedule holds. */
  function Count(sched: seq<nat>, j: nat): (c: nat)
    ensures c <= |sched|
  {
    if sched == [] then 0 else (if sched[0] == j then 1 else 0) + Count(sched[1..], j)
  }

  /** The results of consumer j's polls, in schedule order. */
  function ResultsOf(sched: seq<nat>, rs: seq<Result<int64>>, j: nat): (out: seq<Result<int64>>)
    requires |rs| == |sched|
    ensures |out| == Count(sched, j)
  {
    if sched == [] then []
    else (if sched[0] == j then [rs[0]] else []) + ResultsOf(sched[1..], rs[1..], j)
  }

  /** Under any interleaving of polls in which no consumer polls more often than it has
      values pending, each consumer receives its oldest pending values in order and keeps
      the rest; the other consumers' polls do not disturb it. */
  lemma {:induction false} ScheduleDelivers(s: Loop, sched: seq<nat>)
    requires Valid(s) && forall k :: 0 <= k < |sched| ==> sched[k] < |s.readCursors|
    requires forall j :: 0 <= j < |s.readCursors| ==> Count(sched, j) <= |Pending(s, j)|
    ensures var (s', rs) := ReceiveSchedule(s, sched);
      forall j :: 0 <= j < |s.readCursors| ==>
        && ResultsOf(sched, rs, j) == AllOk(Pending(s, j)[..Count(sched, j)])
        && Pending(s', j) == Pending(s, j)[Count(sched, j)..]
    decreases |sched|
  {
    if sched != [] {
      var i := sched[0];
      var (got, s1) := Receive(s, i);
      ReceivePops(s, i);
      ScheduleDelivers(s1, sched[1..]);
      var (s2, rest) := ReceiveSchedule(s1, sched[1..]);
      var (s', rs) := ReceiveSchedule(s, sched);
      assert rs[1..] == rest;
      forall j | 0 <= j < |s.readCursors|
        ensures ResultsOf(sched, rs, j) == AllOk(Pending(s, j)[..Count(sched, j)])
        ensures Pending(s', j) == Pending(s, j)[Count(sched, j)..]
      {
        var p, c := Pending(s, j), Count(sched, j);
        if j == i {
          assert p[1..][..c - 1] == p[..c][1..];
          assert p[1..][c - 1..] == p[c..];
        }
      }
    }
  }

  /** After a run of sends that fits in the ring, a consumer that had read everything has
      exactly the sent values pending. */
  lemma CaughtUpReceivesRun(s: Loop, vs: seq<int64>)
    requires Valid(s) && Backpressured(s)
    requires forall j :: 0 <= j < |s.readCursors| ==> Pending(s, j) == []
    requires s.writeCursor + |vs| <= s.minReadCursor + s.nBufferSlots
    ensures forall k :: 0 <= k < |vs| ==> SendAll(s, vs).1[k]
    ensures forall j :: 0 <= j < |s.readCursors| ==> Pending(SendAll(s, vs).0, j) == vs
  {
    SendAllBroadcasts(s, vs);
    var s1 := SendAll(s, vs).0;
    forall j | 0 <= j < |s.readCursors|
      ensures Pending(s1, j) == vs
    {
      assert Pending(s1, j) == Pending(s, j) + vs;
    }
  }

  /** Broadcast under any interleaving: when every consumer has read everything, after a run
      of sends that fits in the ring, whatever order the consumers then poll in, each one
      receives a prefix of the sent values, in order, as long as its polls. */
  lemma BroadcastAnyInterleaving(s: Loop, vs: seq<int64>, sched: seq<nat>)
    requires Valid(s) && Backpressured(s)
    requires forall j :: 0 <= j < |s.readCursors| ==> Pending(s, j) == []
    requires s.writeCursor + |vs| <= s.minReadCursor + s.nBufferSlots
    requires forall k :: 0 <= k < |sched| ==> sched[k] < |s.readCursors|
    requires forall j :: 0 <= j < |s.readCursors| ==> Count(sched, j) <= |vs|
    ensures forall k :: 0 <= k < |vs| ==> SendAll(s, vs).1[k]
    ensures forall j :: 0 <= j < |s.readCursors| ==>
      ResultsOf(sched, ReceiveSchedule(SendAll(s, vs).0, sched).1, j) == AllOk(vs[..Count(sched, j)])
  {
    CaughtUpReceivesRun(s, vs);
    ScheduleDelivers(SendAll(s, vs).0, sched);
  }
}
