/** The broadcast ring channel `LongHyperLoop` as a value: one record holding the ring's
    state and one function per step the producer or a consumer takes.

    A consumer is an index into `readCursors`. `Pending(s, i)` is what consumer i still has
    to read: the slots at logical positions readCursors[i] .. writeCursor - 1. */
module RingModel {
  import opened Bits

  /** Java `int`, the type of the capacity argument. */
  newtype int32 = x: int | -0x8000_0000 <= x < 0x8000_0000

  /** Java `long`, the payload of one slot. */
  newtype int64 = x: int | -0x8000_0000_0000_0000 <= x < 0x8000_0000_0000_0000

  datatype Error =
    | ContractViolation  // a failed `contract(...)` in the constructor
    | NothingToReceive   // `IllegalStateException("nothing to receive.")`

  datatype Result<T> = Ok(value: T) | Failure(error: Error)

  datatype Loop = Loop(
    nBufferSlots: nat,
    bufferSlotMask: nat,
    buffer: seq<int64>,
    writeCursor: nat,
    minReadCursor: nat,
    readCursors: seq<nat>)

  /** The constructor's two `contract` checks, in the order it makes them. */
  predicate CapacityContract(n: int32)
  {
    n >= 8 && BitCount(n as nat) == 1
  }

  /** The checks accept exactly the powers of two from 8 on. */
  lemma CapacityContractMeaning(n: int32)
    ensures CapacityContract(n) <==> n >= 8 && IsPowerOfTwo(n as nat)
  {
    if n >= 8 {
      BitCountOneIffPowerOfTwo(n as nat);
    }
  }

  /** The default capacity of 512 slots passes the checks. */
  lemma DefaultCapacityAccepted()
    ensures CapacityContract(512)
  {
    assert Pow2(9) == 512;
    BitCountOfPow2(9);
  }

  /** The state every step keeps: a power-of-two buffer of at least 8 slots with its mask,
      no consumer ahead of the producer, and the cached minimum still 0 while nobody is
      registered. */
  ghost predicate Valid(s: Loop)
  {
    && s.nBufferSlots >= 8
    && IsPowerOfTwo(s.nBufferSlots)
    && s.bufferSlotMask == s.nBufferSlots - 1
    && |s.buffer| == s.nBufferSlots
    && (forall i :: 0 <= i < |s.readCursors| ==> s.readCursors[i] <= s.writeCursor)
    && (|s.readCursors| == 0 ==> s.minReadCursor == 0)
  }

  /** The backpressure invariant: the cached minimum is a lower bound of every consumer's
      cursor and the producer is at most one ring ahead of it, so no consumer is lapped. */
  ghost predicate Backpressured(s: Loop)
  {
    && s.writeCursor <= s.minReadCursor + s.nBufferSlots
    && (forall i :: 0 <= i < |s.readCursors| ==> s.minReadCursor <= s.readCursors[i])
  }

  /** A freshly constructed channel over buffer memory holding `contents`. */
  function Init(n: int32, contents: seq<int64>): (s: Loop)
    requires CapacityContract(n) && |contents| == n as int
    ensures Valid(s) && Backpressured(s)
    ensures s.nBufferSlots == n as nat && s.bufferSlotMask == n as nat - 1
    ensures s.writeCursor == 0 && s.minReadCursor == 0 && s.readCursors == []
  {
    CapacityContractMeaning(n);
    Loop(n as nat, n as nat - 1, contents, 0, 0, [])
  }

  /** The slot of logical position `cursor`: `cursor & bufferSlotMask`, which is
      `cursor % nBufferSlots`. */
  function Slot(s: Loop, cursor: nat): (k: nat)
    requires Valid(s)
    ensures k == cursor % s.nBufferSlots && k < |s.buffer|
  {
    MaskIsModPowerOfTwo(cursor, s.nBufferSlots);
    BitAnd(cursor, s.bufferSlotMask)
  }

  /** The ring looks full: the exact equality the producer tests. */
  predicate Full(s: Loop)
  {
    s.writeCursor == s.minReadCursor + s.nBufferSlots
  }

  /** The smallest of a non-empty sequence of cursors. */
  function MinOf(cs: seq<nat>): (m: nat)
    requires |cs| > 0
    ensures m in cs
    ensures forall i :: 0 <= i < |cs| ==> m <= cs[i]
  {
    if |cs| == 1 then cs[0]
    else
      var rest := MinOf(cs[1..]);
      if cs[0] > rest then rest else cs[0]
  }

  /** The minimum of a suffix is the smaller of its first element and the minimum of the
      rest: the step of a scan that walks from the newest cursor back to the oldest. */
  lemma MinOfSuffix(cs: seq<nat>, k: nat)
    requires k + 1 < |cs|
    ensures MinOf(cs[k..]) == if cs[k] > MinOf(cs[k + 1..]) then MinOf(cs[k + 1..]) else cs[k]
  {
    assert cs[k..][1..] == cs[k + 1..];
  }

  /** What the producer's scan yields: the minimum over the registered consumers, and the
      zero consumer-count word when there are none. */
  function ScanMin(cs: seq<nat>): (m: nat)
    ensures |cs| == 0 ==> m == 0
    ensures |cs| > 0 ==> m in cs && forall i :: 0 <= i < |cs| ==> m <= cs[i]
  {
    if |cs| == 0 then 0 else MinOf(cs)
  }

  /** The full branch of `send`: the cached minimum is recomputed, nothing is written. */
  function Refresh(s: Loop): (r: Loop)
    requires Valid(s)
    ensures Valid(r)
  {
    s.(minReadCursor := ScanMin(s.readCursors))
  }

  /** The write branch of `send`: store `value` at the producer's slot and advance. */
  function Write(s: Loop, value: int64): (r: Loop)
    requires Valid(s)
    ensures Valid(r)
  {
    s.(buffer := s.buffer[Slot(s, s.writeCursor) := value], writeCursor := s.writeCursor + 1)
  }

  /** `send(value)`: the new state and whether `value` was accepted. */
  function Send(s: Loop, value: int64): (r: (Loop, bool))
    requires Valid(s)
    ensures Valid(r.0)
    ensures r.0.readCursors == s.readCursors && r.0.nBufferSlots == s.nBufferSlots
  {
    if Full(s) then (Refresh(s), false) else (Write(s, value), true)
  }

  /** The one refresh after which `sendTo` makes progress in a sequential run: the ring is
      not full, or it is not full once the cached minimum has been recomputed. */
  predicate SendToProceeds(s: Loop)
    requires Valid(s)
  {
    !Full(s) || !Full(Refresh(s))
  }

  /** `sendTo(value)` when it does not spin forever. */
  function SendTo(s: Loop, value: int64): (r: Loop)
    requires Valid(s) && SendToProceeds(s)
    ensures Valid(r)
  {
    Write(if Full(s) then Refresh(s) else s, value)
  }

  /** `createOutPort()`: one more consumer, whose cursor starts at 0. */
  function AddPort(s: Loop): (r: Loop)
    requires Valid(s)
    ensures Valid(r)
  {
    s.(readCursors := s.readCursors + [0])
  }

  /** `isReceivable()` of consumer i. */
  predicate IsReceivable(s: Loop, i: nat)
    requires i < |s.readCursors|
  {
    s.readCursors[i] != s.writeCursor
  }

  /** `receive()` of consumer i: the value read or the failure, and the new state. */
  function Receive(s: Loop, i: nat): (r: (Result<int64>, Loop))
    requires Valid(s) && i < |s.readCursors|
    ensures Valid(r.1) && |r.1.readCursors| == |s.readCursors|
  {
    var cursor := s.readCursors[i];
    if cursor == s.writeCursor then (Failure(NothingToReceive), s)
    else (Ok(s.buffer[Slot(s, cursor)]), s.(readCursors := s.readCursors[i := cursor + 1]))
  }

  /** The values consumer i has yet to read, oldest first. */
  function Pending(s: Loop, i: nat): (p: seq<int64>)
    requires Valid(s) && i < |s.readCursors|
  {
    seq(s.writeCursor - s.readCursors[i], k requires 0 <= k => s.buffer[Slot(s, s.readCursors[i] + k)])
  }

  // ---------------------------------------------------------------------------------------
  // Properties of the steps

  /** Element k of consumer i's pending values is the slot of logical position
      readCursors[i] + k. */
  lemma PendingAt(s: Loop, i: nat, k: nat)
    requires Valid(s) && i < |s.readCursors|
    requires k < s.writeCursor - s.readCursors[i]
    ensures |Pending(s, i)| == s.writeCursor - s.readCursors[i]
    ensures Pending(s, i)[k] == s.buffer[(s.readCursors[i] + k) % s.nBufferSlots]
  {
    var r := s.readCursors[i];
    assert Pending(s, i)[k] == s.buffer[Slot(s, r + k)];
  }

  /** Pending values depend only on the buffer, the producer's cursor and the consumer's own. */
  lemma PendingDependsOnCursors(s: Loop, i: nat, t: Loop, j: nat)
    requires Valid(s) && i < |s.readCursors| && Valid(t) && j < |t.readCursors|
    requires s.buffer == t.buffer && s.writeCursor == t.writeCursor
    requires s.readCursors[i] == t.readCursors[j]
    ensures Pending(s, i) == Pending(t, j)
  {
    assert |Pending(s, i)| == |Pending(t, j)|;
    forall k | 0 <= k < |Pending(s, i)|
      ensures Pending(s, i)[k] == Pending(t, j)[k]
    {
      PendingAt(s, i, k);
      PendingAt(t, j, k);
    }
  }

  /** Two logical positions less than one ring apart use different slots. */
  lemma SlotsDistinct(s: Loop, p: nat, q: nat)
    requires Valid(s) && p < q < p + s.nBufferSlots
    ensures Slot(s, p) != Slot(s, q)
  {
    ModDistinct(p, q, s.nBufferSlots);
  }

  /** Under the backpressure invariant the exact-equality full test agrees with `>=`. */
  lemma FullTestIsExact(s: Loop)
    requires Backpressured(s)
    ensures Full(s) <==> s.writeCursor >= s.minReadCursor + s.nBufferSlots
  {
  }

  /** Under the backpressure invariant no consumer has more than one ring of values to read. */
  lemma PendingFitsRing(s: Loop, i: nat)
    requires Valid(s) && Backpressured(s) && i < |s.readCursors|
    ensures |Pending(s, i)| <= s.nBufferSlots
  {
  }

  /** A consumer is receivable exactly when it has something pending. */
  lemma ReceivableIffPending(s: Loop, i: nat)
    requires Valid(s) && i < |s.readCursors|
    ensures IsReceivable(s, i) <==> Pending(s, i) != []
  {
  }

  /** `send` keeps the backpressure invariant. */
  lemma {:induction false} SendKeepsBackpressure(s: Loop, value: int64)
    requires Valid(s) && Backpressured(s)
    ensures Backpressured(Send(s, value).0)
  {
    var cs := s.readCursors;
    if Full(s) && |cs| > 0 {
      var m := MinOf(cs);
      var j :| 0 <= j < |cs| && cs[j] == m;
      assert s.minReadCursor <= m;
    }
  }

  /** `send` is a broadcast: an accepted value is appended to what every consumer has
      pending, and a rejected one changes nobody's pending values. */
  lemma SendBroadcasts(s: Loop, value: int64, j: nat)
    requires Valid(s) && Backpressured(s) && j < |s.readCursors|
    ensures j < |Send(s, value).0.readCursors|
    ensures Pending(Send(s, value).0, j) ==
      if Send(s, value).1 then Pending(s, j) + [value] else Pending(s, j)
  {
    var s', sent := Send(s, value).0, Send(s, value).1;
    if sent {
      var r, w := s.readCursors[j], s.writeCursor;
      var before, after := Pending(s, j), Pending(s', j);
      assert |after| == |before| + 1;
      forall k | 0 <= k < |after|
        ensures after[k] == (before + [value])[k]
      {
        PendingAt(s', j, k);
        if k < |before| {
          PendingAt(s, j, k);
          SlotsDistinct(s, r + k, w);
          assert s'.buffer[Slot(s, r + k)] == s.buffer[Slot(s, r + k)];
        } else {
          assert r + k == w;
          assert s'.buffer[Slot(s, w)] == value;
        }
      }
      assert after == before + [value];
    } else {
      PendingDependsOnCursors(s', j, s, j);
    }
  }

  /** A rejected `send` succeeds on its next attempt exactly when the slowest consumer has
      moved past the cached minimum meanwhile. */
  lemma {:induction false} BackpressureRelease(s: Loop, value: int64)
    requires Valid(s) && Backpressured(s) && Full(s) && |s.readCursors| > 0
    ensures !Send(s, value).1
    ensures Send(Send(s, value).0, value).1 <==> MinOf(s.readCursors) > s.minReadCursor
  {
    var cs := s.readCursors;
    var j :| 0 <= j < |cs| && cs[j] == MinOf(cs);
    assert s.minReadCursor <= cs[j];
  }

  /** With no consumers registered a full ring stays full: `send` rejects and changes
      nothing. */
  lemma NoConsumersStayFull(s: Loop, value: int64)
    requires Valid(s) && Full(s) && |s.readCursors| == 0
    ensures Send(s, value) == (s, false)
  {
  }

  /** `sendTo` is `send` retried: at most once, in the states where it makes progress. */
  lemma SendToIsSendRetried(s: Loop, value: int64)
    requires Valid(s) && SendToProceeds(s)
    ensures var (s1, sent) := Send(s, value);
      if sent then SendTo(s, value) == s1
      else Send(s1, value) == (SendTo(s, value), true)
  {
  }

  /** `receive` fails exactly when nothing is pending; otherwise it returns the oldest pending
      value and removes it from that consumer's pending values only. */
  lemma ReceivePops(s: Loop, i: nat)
    requires Valid(s) && i < |s.readCursors|
    ensures var (r, s') := Receive(s, i);
      && (r.Failure? <==> Pending(s, i) == [])
      && (r.Failure? ==> r.error == NothingToReceive && s' == s)
      && (r.Ok? ==> r.value == Pending(s, i)[0] && Pending(s', i) == Pending(s, i)[1..])
      && (forall j :: 0 <= j < |s.readCursors| && j != i ==> Pending(s', j) == Pending(s, j))
  {
    var (r, s') := Receive(s, i);
    if r.Ok? {
      var before, after := Pending(s, i), Pending(s', i);
      assert |after| == |before| - 1;
      forall k | 0 <= k < |after|
        ensures after[k] == before[1..][k]
      {
        PendingAt(s', i, k);
        PendingAt(s, i, k + 1);
        assert s'.readCursors[i] + k == s.readCursors[i] + (k + 1);
      }
      assert after == before[1..];
    }
    forall j | 0 <= j < |s.readCursors| && j != i
      ensures Pending(s', j) == Pending(s, j)
    {
      PendingDependsOnCursors(s', j, s, j);
    }
  }

  /** `receive` keeps the backpressure invariant. */
  lemma ReceiveKeepsBackpressure(s: Loop, i: nat)
    requires Valid(s) && Backpressured(s) && i < |s.readCursors|
    ensures Backpressured(Receive(s, i).1)
  {
  }

  /** `createOutPort` keeps the backpressure invariant exactly when the cached minimum is
      still 0: a consumer that joins later starts behind the producer's guard. */
  lemma AddPortBackpressure(s: Loop)
    requires Valid(s) && Backpressured(s)
    ensures Backpressured(AddPort(s)) <==> s.minReadCursor == 0
  {
    var s' := AddPort(s);
    if Backpressured(s') {
      assert s'.readCursors[|s.readCursors|] == 0;
    }
  }

  /** A new consumer's pending values are the whole buffer from logical position 0 on, and
      the others' pending values are unchanged. */
  lemma AddPortReplaysFromZero(s: Loop)
    requires Valid(s)
    ensures var s' := AddPort(s);
      && |s'.readCursors| == |s.readCursors| + 1
      && Pending(s', |s.readCursors|) == seq(s.writeCursor, p => s.buffer[p % s.nBufferSlots])
      && (forall j :: 0 <= j < |s.readCursors| ==> Pending(s', j) == Pending(s, j))
  {
    var s' := AddPort(s);
    var joined, replay := Pending(s', |s.readCursors|), seq(s.writeCursor, p => s.buffer[p % s.nBufferSlots]);
    forall k | 0 <= k < |joined|
      ensures joined[k] == replay[k]
    {
      PendingAt(s', |s.readCursors|, k);
    }
    forall j | 0 <= j < |s.readCursors|
      ensures Pending(s', j) == Pending(s, j)
    {
      PendingDependsOnCursors(s', j, s, j);
    }
  }
}
