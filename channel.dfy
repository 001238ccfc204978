/** The channel as the source keeps it: a `LongHyperLoop` object whose cursors and buffer
    the producer and the consumers update in place, and one `OutPort` handle per consumer.
    Every step is tied to its value-level counterpart in RingModel, where its guarantees are
    proved. */
module Channel {
  import opened Bits
  import opened RingModel

  class LongHyperLoop {
    const nBufferSlots: nat
    const bufferSlotMask: nat
    const buffer: array<int64>
    var writeCursor: nat
    var minReadCursor: nat
    /** One cursor per registered consumer, in registration order. */
    var readCursors: seq<nat>

    /** The fields as a RingModel value. */
    ghost function State(): Loop
      reads this, buffer
    {
      Loop(nBufferSlots, bufferSlotMask, buffer[..], writeCursor, minReadCursor, readCursors)
    }

    ghost predicate Valid()
      reads this, buffer
    {
      RingModel.Valid(State())
    }

    /** `LongHyperLoop(int nBufferSlots)` once its capacity checks have passed. The buffer's
        initial contents are whatever the allocator returned, so nothing is promised about
        them. */
    constructor (nBufferSlots: int32)
      requires CapacityContract(nBufferSlots)
      ensures Valid() && fresh(buffer) && buffer.Length == nBufferSlots as int
      ensures State() == Init(nBufferSlots, buffer[..])
    {
      CapacityContractMeaning(nBufferSlots);
      this.nBufferSlots := nBufferSlots as nat;
      bufferSlotMask := nBufferSlots as nat - 1;
      buffer := new int64[nBufferSlots as nat];
      writeCursor, minReadCursor, readCursors := 0, 0, [];
    }

    /** `new LongHyperLoop(nBufferSlots)` with its checks: a capacity below 8 or not a power of
        two is a contract violation and yields no channel. */
    static method Create(nBufferSlots: int32) returns (r: Result<LongHyperLoop>)
      ensures r.Failure? <==> !(nBufferSlots >= 8 && IsPowerOfTwo(nBufferSlots as nat))
      ensures r.Failure? ==> r.error == ContractViolation
      ensures r.Ok? ==> fresh(r.value) && fresh(r.value.buffer) && r.value.Valid()
      ensures r.Ok? ==> CapacityContract(nBufferSlots) && r.value.buffer.Length == nBufferSlots as int
      ensures r.Ok? ==> r.value.State() == Init(nBufferSlots, r.value.buffer[..])
    {
      CapacityContractMeaning(nBufferSlots);
      if CapacityContract(nBufferSlots) {
        var loop := new LongHyperLoop(nBufferSlots);
        r := Ok(loop);
      } else {
        r := Failure(ContractViolation);
      }
    }

    /** `new LongHyperLoop()`: 512 slots. */
    static method CreateDefault() returns (loop: LongHyperLoop)
      ensures fresh(loop) && fresh(loop.buffer) && loop.Valid()
      ensures loop.nBufferSlots == 512 && loop.bufferSlotMask == 511
      ensures loop.writeCursor == 0 && loop.minReadCursor == 0 && loop.readCursors == []
    {
      DefaultCapacityAccepted();
      loop := new LongHyperLoop(512);
    }

    /** The producer's scan for the slowest consumer: it starts from the newest cursor and
        walks back to the oldest, keeping the smaller value. With no consumer registered the
        first word it reads is the zero consumer count. */
    method ScanReadCursors() returns (m: nat)
      ensures m == ScanMin(readCursors)
      ensures |readCursors| > 0 ==> m in readCursors
      ensures forall i :: 0 <= i < |readCursors| ==> m <= readCursors[i]
    {
      var count := |readCursors|;
      if count == 0 {
        return 0;
      }
      m := readCursors[count - 1];
      var i := 1;
      while i < count
        invariant 1 <= i <= count
        invariant m == MinOf(readCursors[count - i..])
      {
        var cursor := readCursors[count - 1 - i];
        MinOfSuffix(readCursors, count - 1 - i);
        m := if m > cursor then cursor else m;
        i := i + 1;
      }
      assert readCursors[0..] == readCursors;
    }

    /** `send(value)`: when the ring looks full, refresh the cached minimum and reject;
        otherwise store `value` in the producer's slot and advance the producer. */
    method Send(value: int64) returns (sent: bool)
      requires Valid()
      modifies this`minReadCursor, this`writeCursor, buffer
      ensures Valid()
      ensures (State(), sent) == RingModel.Send(old(State()), value)
      ensures sent <==> old(writeCursor) != old(minReadCursor) + nBufferSlots
      ensures !sent ==> buffer[..] == old(buffer[..]) && writeCursor == old(writeCursor)
      ensures !sent ==> minReadCursor == ScanMin(readCursors)
      ensures sent ==> buffer[..] == old(buffer[..])[old(writeCursor) % nBufferSlots := value]
      ensures sent ==> writeCursor == old(writeCursor) + 1 && minReadCursor == old(minReadCursor)
    {
      var minRead := minReadCursor;
      var w := writeCursor;
      if w == minRead + nBufferSlots {
        minRead := ScanReadCursors();
        minReadCursor := minRead;
        return false;
      }
      buffer[BitAnd(w, bufferSlotMask)] := value;
      writeCursor := w + 1;
      return true;
    }

    /** `sendTo(value)`: refresh the cached minimum while the ring looks full, then store and
        advance. Run sequentially, the loop either exits after one refresh or never, so the
        precondition is that it does. */
    method SendTo(value: int64)
      requires Valid() && SendToProceeds(State())
      modifies this`minReadCursor, this`writeCursor, buffer
      ensures Valid() && State() == RingModel.SendTo(old(State()), value)
      ensures buffer[..] == old(buffer[..])[old(writeCursor) % nBufferSlots := value]
      ensures writeCursor == old(writeCursor) + 1
      ensures minReadCursor ==
        if old(writeCursor) == old(minReadCursor) + nBufferSlots then ScanMin(readCursors)
        else old(minReadCursor)
    {
      var minRead := minReadCursor;
      var w := writeCursor;
      ghost var refreshes: nat := 0;
      while w == minRead + nBufferSlots
        invariant refreshes <= 1 && Valid() && buffer[..] == old(buffer[..])
        invariant w == writeCursor == old(writeCursor) && minRead == minReadCursor
        invariant refreshes == 0 ==> minRead == old(minReadCursor)
        invariant refreshes == 1 ==> Full(old(State())) && minRead == ScanMin(readCursors)
        decreases 1 - refreshes
      {
        minRead := ScanReadCursors();
        minReadCursor := minRead;
        refreshes := refreshes + 1;
      }
      buffer[BitAnd(w, bufferSlotMask)] := value;
      writeCursor := w + 1;
    }

    /** `createOutPort()`: register one more consumer. */
    method CreateOutPort() returns (port: OutPort)
      requires Valid()
      modifies this`readCursors
      ensures Valid() && State() == AddPort(old(State()))
      ensures readCursors == old(readCursors) + [0]
      ensures fresh(port) && port.loop == this && port.id == old(|readCursors|) && port.Valid()
    {
      port := new OutPort(this);
    }
  }

  /** A consumer of one LongHyperLoop: its cursor is `loop.readCursors[id]`. */
  class OutPort {
    const loop: LongHyperLoop
    const id: nat

    ghost predicate Valid()
      reads this, loop, loop.buffer
    {
      loop.Valid() && id < |loop.readCursors|
    }

    /** `OutPort()`: append a zeroed cursor for the new consumer. */
    constructor (loop: LongHyperLoop)
      requires loop.Valid()
      modifies loop`readCursors
      ensures Valid() && this.loop == loop && id == old(|loop.readCursors|)
      ensures loop.readCursors == old(loop.readCursors) + [0]
      ensures loop.State() == AddPort(old(loop.State()))
    {
      this.loop := loop;
      id := |loop.readCursors|;
      new;
      loop.readCursors := loop.readCursors + [0];
    }

    /** `isReceivable()`: the producer has moved past this consumer. */
    method IsReceivable() returns (b: bool)
      requires Valid()
      ensures b <==> loop.readCursors[id] != loop.writeCursor
      ensures b <==> Pending(loop.State(), id) != []
    {
      ReceivableIffPending(loop.State(), id);
      b := loop.readCursors[id] != loop.writeCursor;
    }

    /** `notReceivable()`: the exact negation of `isReceivable()`. */
    method NotReceivable() returns (b: bool)
      requires Valid()
      ensures b <==> loop.readCursors[id] == loop.writeCursor
      ensures b <==> Pending(loop.State(), id) == []
    {
      ReceivableIffPending(loop.State(), id);
      b := loop.readCursors[id] == loop.writeCursor;
    }

    /** `receive()`: fail with "nothing to receive" when caught up, otherwise return the value
        in this consumer's slot and advance its cursor. */
    method Receive() returns (r: Result<int64>)
      requires Valid()
      modifies loop`readCursors
      ensures Valid()
      ensures (r, loop.State()) == RingModel.Receive(old(loop.State()), id)
      ensures r.Failure? <==> old(loop.readCursors[id]) == loop.writeCursor
      ensures r.Failure? ==> r.error == NothingToReceive && loop.readCursors == old(loop.readCursors)
      ensures r.Ok? ==> r.value == loop.buffer[old(loop.readCursors[id]) % loop.nBufferSlots]
      ensures r.Ok? ==> loop.readCursors == old(loop.readCursors)[id := old(loop.readCursors[id]) + 1]
    {
      var cursor := loop.readCursors[id];
      if cursor == loop.writeCursor {
        return Failure(NothingToReceive);
      }
      var value := loop.buffer[BitAnd(cursor, loop.bufferSlotMask)];
      loop.readCursors := loop.readCursors[id := cursor + 1];
      return Ok(value);
    }

    /** `received()` once its wait has ended: a value is available; read it and advance. */
    method Received() returns (value: int64)
      requires Valid() && loop.readCursors[id] != loop.writeCursor
      modifies loop`readCursors
      ensures Valid()
      ensures (Ok(value), loop.State()) == RingModel.Receive(old(loop.State()), id)
      ensures value == loop.buffer[old(loop.readCursors[id]) % loop.nBufferSlots]
      ensures loop.readCursors == old(loop.readCursors)[id := old(loop.readCursors[id]) + 1]
    {
      var cursor := loop.readCursors[id];
      value := loop.buffer[BitAnd(cursor, loop.bufferSlotMask)];
      loop.readCursors := loop.readCursors[id := cursor + 1];
    }

    /** `receiveAll()` once its wait has ended: it reads one value, advances past it and
        drops it. */
    method ReceiveAll()
      requires Valid() && loop.readCursors[id] != loop.writeCursor
      modifies loop`readCursors
      ensures Valid()
      ensures loop.State() == RingModel.Receive(old(loop.State()), id).1
      ensures loop.readCursors == old(loop.readCursors)[id := old(loop.readCursors[id]) + 1]
    {
      var cursor := loop.readCursors[id];
      var value := loop.buffer[BitAnd(cursor, loop.bufferSlotMask)];
      loop.readCursors := loop.readCursors[id := cursor + 1];
    }
  }

  /** A client of the contracts above: two consumers registered before a send each receive
      the value, and the ring then reports nothing to receive to either of them. */
  method FanOutScenario()
  {
    var loop := LongHyperLoop.CreateDefault();
    var a := loop.CreateOutPort();
    var b := loop.CreateOutPort();
    var ok := loop.Send(10);
    assert ok && loop.buffer[0] == 10 && loop.readCursors == [0, 0];
    var x := a.Receive();
    assert x == Ok(10) && loop.readCursors == [1, 0];
    var y := b.Receive();
    assert y == Ok(10) && loop.readCursors == [1, 1];
    var more := a.IsReceivable();
    assert !more;
    var none := b.Receive();
    assert none == Failure(NothingToReceive);
  }
}
