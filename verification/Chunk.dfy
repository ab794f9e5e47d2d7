/** The send buffer: chunks waiting to be written (`ready`) and chunks to reuse (`free`), which
    together behave as one FIFO byte queue. */
module Chunk {
  import opened Bytes
  import opened SendPipe

  /** `sizeof(DataChunk)`: three 32-bit words. */
  const CHUNK_HEADER: nat := 12

  const THRESHOLD: nat := 1024

  /** One block and the offsets of the unread part. A chunk is owned by the one list it is in. */
  datatype DataChunk = DataChunk(block: Bytes, lOfs: nat, rOfs: nat) {

    ghost predicate InBounds() {
      lOfs <= rOfs <= |block| && |block| + CHUNK_HEADER >= THRESHOLD
    }

    function Data(): (r: Bytes)
      requires InBounds()
    {
      block[lOfs..rOfs]
    }

    function Room(): (r: nat)
      requires InBounds()
    {
      |block| - rOfs
    }

    /** The `memcpy` behind the write offset. */
    method Append(data: Bytes) returns (c: DataChunk)
      requires InBounds() && |data| <= Room()
      ensures c.InBounds() && c.Data() == Data() + data && |c.block| == |block|
      ensures c.lOfs == lOfs && c.rOfs == rOfs + |data|
    {
      c := DataChunk(block[..rOfs] + data + block[rOfs + |data|..], lOfs, rOfs + |data|);
    }
  }

  function Pow2(n: nat): (p: nat)
    ensures p > 0
  {
    if n == 0 then 1 else 2 * Pow2(n - 1)
  }

  /** Largest power of two not above `i`. */
  function TopPower(i: nat): (p: nat)
    requires 0 < i
    ensures p <= i < 2 * p
  {
    if i == 1 then 1 else 2 * TopPower(i / 2)
  }

  lemma {:induction false} TopPowerUnique(i: nat, n: nat)
    requires Pow2(n) <= i < 2 * Pow2(n)
    ensures TopPower(i) == Pow2(n)
  {
    if n == 0 {
    } else {
      TopPowerUnique(i / 2, n - 1);
    }
  }

  function CeilToK(i: nat): (r: nat)
    requires i < TWO_32
    ensures i < THRESHOLD ==> r == THRESHOLD
    ensures THRESHOLD <= i < TWO_31 ==> i < r <= 2 * i
  {
    if i < THRESHOLD then THRESHOLD else Wrap32(2 * TopPower(i))
  }

  /** The memory of a new chunk: the power of two above `i`, and the threshold for anything smaller. */
  lemma {:induction false} CeilToKIs(i: nat, n: nat)
    requires n < 31 && Pow2(n) <= i < Pow2(n + 1)
    ensures Pow2(n + 1) <= TWO_31 && CeilToK(i) == if i < THRESHOLD then THRESHOLD else Pow2(n + 1)
  {
    Pow2Of31();
    Pow2Grows(n + 1, 31);
    TopPowerUnique(i, n);
  }

  lemma NewChunkSize(i: nat)
    requires 0 < i < TWO_31
    ensures exists n :: CeilToK(i) == Pow2(n)
    ensures CeilToK(i) < TWO_31 <==> i < 0x4000_0000
    ensures forall n: nat | Pow2(n) <= i < Pow2(n + 1) ::
              CeilToK(i) == if i < THRESHOLD then THRESHOLD else Pow2(n + 1)
  {
    Pow2Of31();
    forall n: nat | Pow2(n) <= i < Pow2(n + 1)
      ensures n < 31 && CeilToK(i) == if i < THRESHOLD then THRESHOLD else Pow2(n + 1)
      ensures i < 0x4000_0000 <==> n < 30
    {
      if n >= 31 {
        Pow2Grows(31, n);
      }
      if n >= 30 {
        Pow2Grows(30, n);
      } else {
        Pow2Grows(n + 1, 30);
      }
      CeilToKIs(i, n);
    }
    var n := Exponent(i);
    assert Pow2(n) <= i < Pow2(n + 1);
    Pow2Grows(n + 1, 31);
    if n + 1 < 31 {
      Pow2Grows(n + 1, 30);
    }
    assert Pow2(10) == THRESHOLD;
    assert CeilToK(i) == Pow2(if i < THRESHOLD then 10 else n + 1);
  }

  lemma {:induction false} Exponent(i: nat) returns (n: nat)
    requires 0 < i
    ensures Pow2(n) <= i < Pow2(n + 1)
  {
    if i == 1 {
      n := 0;
    } else {
      n := Exponent(i / 2);
      n := n + 1;
    }
  }

  lemma {:induction false} Pow2Grows(m: nat, n: nat)
    requires m <= n
    ensures Pow2(m) <= Pow2(n)
    decreases n
  {
    if m == n {
    } else {
      Pow2Grows(m, n - 1);
    }
  }

  /** Pow2(n) for literal n up to 31. */
  lemma Pow2Of31()
    ensures Pow2(31) == TWO_31
  {
    assert Pow2(10) == 1024;
    assert Pow2(20) == 1048576;
  }

  /** Whether the bit `k` is set in `i`: for a power of two, `k & i` is nonzero exactly when `i / k` is odd. */
  predicate HasBit(i: nat, k: nat)
    requires k > 0
  {
    i / k % 2 == 1
  }

  lemma HasTopBit(i: nat, k: nat)
    requires i < 2 * k
    ensures HasBit(i, k) <==> k <= i
  {
    if k <= i {
      assert i / k == 1 by { assert i == k * 1 + (i - k); }
    } else {
      assert i / k == 0;
    }
  }

  /** `ck_ceil_to_k`: shift a single bit down until it meets `i`. */
  method CeilToKByShifting(i: nat) returns (r: nat)
    requires i < TWO_32
    ensures r == CeilToK(i)
    ensures TWO_31 <= i ==> r == 0
  {
    if i < THRESHOLD {
      return THRESHOLD;
    }
    var k: nat := TWO_31;
    ghost var n: nat := 31;
    Pow2Of31();
    while k > 0 && !HasBit(i, k)
      invariant k == Pow2(n) && i < 2 * k
      invariant k == TWO_31 || i < TWO_31
    {
      HasTopBit(i, k);
      k, n := k / 2, n - 1;
    }
    HasTopBit(i, k);
    TopPowerUnique(i, n);
    r := Wrap32(2 * k);
  }

  /** Total payload size of a list of chunks. */
  ghost function Capacity(cks: seq<DataChunk>): (r: nat)
    ensures cks == [] ==> r == 0
  {
    if cks == [] then 0 else |cks[0].block| + Capacity(cks[1..])
  }

  /** Total memory of a list of chunks, headers included. */
  ghost function Memory(cks: seq<DataChunk>): (r: nat) {
    Capacity(cks) + CHUNK_HEADER * |cks|
  }

  lemma {:induction false} CapacitySnoc(cks: seq<DataChunk>, c: DataChunk)
    ensures Capacity(cks + [c]) == Capacity(cks) + |c.block|
  {
    if cks == [] {
      assert cks + [c] == [c];
    } else {
      CapacitySnoc(cks[1..], c);
      assert (cks + [c])[1..] == cks[1..] + [c];
    }
  }

  /** The bytes held by a list of chunks, in order. */
  ghost function Contents(cks: seq<DataChunk>): (r: Bytes)
    requires forall c <- cks :: c.InBounds()
  {
    if cks == [] then [] else cks[0].Data() + Contents(cks[1..])
  }

  lemma {:induction false} ContentsSnoc(cks: seq<DataChunk>, c: DataChunk)
    requires c.InBounds() && forall d <- cks :: d.InBounds()
    ensures forall d <- cks + [c] :: d.InBounds()
    ensures Contents(cks + [c]) == Contents(cks) + c.Data()
  {
    if cks == [] {
      assert cks + [c] == [c];
    } else {
      ContentsSnoc(cks[1..], c);
      assert (cks + [c])[1..] == cks[1..] + [c];
      Assoc(cks[0].Data(), Contents(cks[1..]), c.Data());
    }
  }

  /** Unread bytes of each chunk. */
  function Sizes(cks: seq<DataChunk>): (r: seq<nat>)
    requires forall c <- cks :: c.InBounds()
    ensures |r| == |cks|
  {
    if cks == [] then [] else [|cks[0].Data()|] + Sizes(cks[1..])
  }

  lemma {:induction false} SizesInCapacity(cks: seq<DataChunk>)
    requires forall c <- cks :: c.InBounds()
    ensures Total(Sizes(cks)) <= Capacity(cks)
  {
    if cks == [] {
    } else {
      SizesInCapacity(cks[1..]);
      assert Sizes(cks)[0] == |cks[0].Data()| <= |cks[0].block| && Sizes(cks)[1..] == Sizes(cks[1..]);
    }
  }

  lemma {:induction false} SizesTotal(cks: seq<DataChunk>)
    requires forall c <- cks :: c.InBounds()
    ensures Total(Sizes(cks)) == |Contents(cks)|
  {
    if cks == [] {
    } else {
      SizesTotal(cks[1..]);
      assert Sizes(cks)[0] == |cks[0].Data()| && Sizes(cks)[1..] == Sizes(cks[1..]);
    }
  }

  lemma {:induction false} SizesAt(cks: seq<DataChunk>, i: nat)
    requires i < |cks| && forall c <- cks :: c.InBounds()
    ensures Sizes(cks)[i] == cks[i].rOfs - cks[i].lOfs
  {
    assert Sizes(cks) == [|cks[0].Data()|] + Sizes(cks[1..]);
    if i == 0 {
    } else {
      SizesAt(cks[1..], i - 1);
    }
  }

  /** The chunks with their offsets set back. */
  ghost function Emptied(cks: seq<DataChunk>): (r: seq<DataChunk>) {
    if cks == [] then [] else [cks[0].(lOfs := 0, rOfs := 0)] + Emptied(cks[1..])
  }

  class Chunks {
    var ready: seq<DataChunk>
    var free: seq<DataChunk>
    const residentSize: nat
    const maxSize: nat
    var allocSize: nat
    var freeCapacity: nat

    ghost predicate Valid()
      reads this
    {
      && (forall c <- ready :: c.InBounds() && c.lOfs < c.rOfs)
      && (forall c <- free :: c.InBounds() && c.lOfs == 0 == c.rOfs)
      && allocSize == Memory(ready) + Memory(free)
      && freeCapacity == Capacity(free)
      && residentSize <= maxSize
    }

    /** An idle buffer keeps no more than the resident size. */
    ghost predicate Trimmed()
      reads this
    {
      ready == [] ==> allocSize <= residentSize
    }

    /** The abstract value: the bytes still to be written, oldest first. */
    ghost function Pending(): (r: Bytes)
      requires Valid()
      reads this
      ensures r == [] <==> ready == []
    {
      Contents(ready)
    }

    /** Space behind the last ready chunk. */
    function BackRoom(): (r: nat)
      requires Valid()
      reads this
    {
      if ready == [] then 0 else ready[|ready| - 1].Room()
    }

    /** Bytes that fit without a new chunk. */
    ghost function Avail(): (r: nat)
      requires Valid()
      reads this
    {
      BackRoom() + freeCapacity
    }

    lemma RoomIsAllocated()
      requires Valid()
      ensures Avail() <= allocSize
    {
      if ready != [] {
        var last := |ready| - 1;
        CapacitySnoc(ready[..last], ready[last]);
        assert ready == ready[..last] + [ready[last]];
      }
    }

    constructor (max: nat, resident: nat)
      requires resident <= max
      ensures Valid() && Trimmed()
      ensures ready == [] && free == [] && maxSize == max && residentSize == resident
    {
      ready, free := [], [];
      residentSize, maxSize := resident, max;
      allocSize, freeCapacity := 0, 0;
    }

    /** `copyDataIntoReadyCK`: returns how many bytes did not fit. */
    method CopyIntoReady(data: Bytes) returns (rest: nat)
      requires Valid()
      modifies this`ready
      ensures Valid() && |ready| == old(|ready|)
      ensures rest == if |data| <= old(BackRoom()) then 0 else |data| - old(BackRoom())
      ensures Pending() == old(Pending()) + data[..|data| - rest]
      ensures BackRoom() == old(BackRoom()) - (|data| - rest)
    {
      hide Contents, Capacity;
      if ready == [] {
        return |data|;
      }
      var before, ck := ready[..|ready| - 1], ready[|ready| - 1];
      rest := if ck.Room() >= |data| then 0 else |data| - ck.Room();
      var filled := ck.Append(data[..|data| - rest]);
      assert ready == before + [ck];
      ContentsSnoc(before, ck);
      ContentsSnoc(before, filled);
      CapacitySnoc(before, ck);
      CapacitySnoc(before, filled);
      Assoc(Contents(before), ck.Data(), data[..|data| - rest]);
      ready := before + [filled];
    }

    /** The front free chunk takes `part` and becomes the last ready one. */
    method ReuseFront(part: Bytes)
      requires Valid() && free != [] && 0 < |part| <= |free[0].block|
      modifies this`ready, this`free, this`freeCapacity
      ensures Valid() && ready != [] && free == old(free)[1..]
      ensures freeCapacity == old(freeCapacity) - |old(free)[0].block|
      ensures Pending() == old(Pending()) + part
      ensures BackRoom() == |old(free)[0].block| - |part|
    {
      var ck := free[0];
      var filled := ck.Append(part);
      assert filled.Data() == part;
      ContentsSnoc(ready, filled);
      CapacitySnoc(ready, filled);
      ready, free := ready + [filled], free[1..];
      freeCapacity := freeCapacity - |ck.block|;
    }

    /** `copyDataIntoFreeCK`: returns how many bytes did not fit. */
    method CopyIntoFree(data: Bytes) returns (rest: nat)
      requires Valid()
      modifies this`ready, this`free, this`freeCapacity
      ensures Valid()
      ensures ready == [] ==> old(ready) == [] && rest == |data|
      ensures rest == if |data| <= old(freeCapacity) then 0 else |data| - old(freeCapacity)
      ensures rest > 0 ==> free == []
      ensures Pending() == old(Pending()) + data[..|data| - rest]
      ensures rest == |data| ==> ready == old(ready) && free == old(free) && freeCapacity == old(freeCapacity)
      ensures rest < |data| ==> Avail() == old(freeCapacity) - (|data| - rest)
    {
      hide Contents, Capacity;
      rest := |data|;
      while free != [] && rest > 0
        invariant Valid()
        invariant ready == [] ==> old(ready) == [] && rest == |data|
        invariant rest <= |data| && Pending() == old(Pending()) + data[..|data| - rest]
        invariant rest == |data| ==> ready == old(ready) && free == old(free) && freeCapacity == old(freeCapacity)
        invariant rest < |data| ==> Avail() == old(freeCapacity) - (|data| - rest)
        invariant 0 < rest < |data| ==> BackRoom() == 0
        decreases |free|
      {
        var ofs := |data| - rest;
        var n := if |free[0].block| >= rest then rest else |free[0].block|;
        ReuseFront(data[ofs..ofs + n]);
        TakeMore(old(Pending()), data, ofs, ofs + n);
        rest := rest - n;
      }
    }

    /** `copyDataIntoNewChunk`. The size is kept in an `int`, so from 2^31 on it is negative and
        `malloc` fails; otherwise `malloc` is taken to succeed. */
    method CopyIntoNew(data: Bytes) returns (ok: bool)
      requires Valid() && 0 < |data| && CHUNK_HEADER + |data| < TWO_31
      modifies this`ready, this`allocSize
      ensures Valid()
      ensures ok <==> CeilToK(CHUNK_HEADER + |data|) < TWO_31
      ensures ok <==> CHUNK_HEADER + |data| < 0x4000_0000
      ensures !ok ==> ready == old(ready) && allocSize == old(allocSize)
      ensures ok ==> ready != [] && exists n :: |ready[|ready| - 1].block| + CHUNK_HEADER == Pow2(n)
      ensures forall n: nat | ok && Pow2(n) <= CHUNK_HEADER + |data| < Pow2(n + 1) ::
                allocSize == old(allocSize) + if CHUNK_HEADER + |data| < THRESHOLD then THRESHOLD else Pow2(n + 1)
      ensures ok ==> Pending() == old(Pending()) + data
      ensures ok ==> allocSize == old(allocSize) + CeilToK(CHUNK_HEADER + |data|)
      ensures ok ==> BackRoom() == CeilToK(CHUNK_HEADER + |data|) - CHUNK_HEADER - |data|
    {
      hide CeilToK, Pow2, Contents, Capacity;
      var memSize := CeilToKByShifting(CHUNK_HEADER + |data|);
      NewChunkSize(CHUNK_HEADER + |data|);
      if AsInt32(memSize) < 0 {
        return false;
      }
      var ck := DataChunk(data + seq(memSize - CHUNK_HEADER - |data|, _ => 0), 0, |data|);
      assert ck.Data() == data;
      ContentsSnoc(ready, ck);
      CapacitySnoc(ready, ck);
      ready := ready + [ck];
      allocSize := allocSize + memSize;
      ok := true;
    }

    /** The first two steps of `copyDataIntoChunks`: the last ready chunk, then the free chunks. */
    method CopyIntoExisting(data: Bytes) returns (rest: nat)
      requires Valid()
      modifies this`ready, this`free, this`freeCapacity
      ensures Valid()
      ensures ready == [] ==> old(ready) == [] && rest == |data|
      ensures rest == if |data| <= old(Avail()) then 0 else |data| - old(Avail())
      ensures rest > 0 ==> free == []
      ensures Pending() == old(Pending()) + data[..|data| - rest]
      ensures Avail() == old(Avail()) - (|data| - rest)
    {
      hide Contents, Capacity;
      rest := CopyIntoReady(data);
      if rest > 0 {
        var ofs := |data| - rest;
        rest := CopyIntoFree(data[ofs..]);
        TakeThenTake(old(Pending()), data, ofs, |data| - rest - ofs);
      }
    }

    /** `copyDataIntoChunks`: existing chunks, then a new one. Only a failed allocation loses bytes. */
    method CopyDataIntoChunks(data: Bytes) returns (ok: bool)
      requires Valid() && Trimmed() && CHUNK_HEADER + |data| < TWO_31
      modifies this
      ensures Valid() && Trimmed()
      ensures |data| <= old(Avail()) ==> ok && allocSize == old(allocSize) && Avail() == old(Avail()) - |data|
      ensures |data| > old(Avail()) ==>
                var mem := CeilToK(CHUNK_HEADER + |data| - old(Avail()));
                && (ok <==> mem < TWO_31)
                && free == []
                && (ok ==> allocSize == old(allocSize) + mem && Avail() == mem - CHUNK_HEADER - (|data| - old(Avail())))
      ensures ok ==> Pending() == old(Pending()) + data
      ensures !ok ==> Pending() == old(Pending()) + data[..old(Avail())] && allocSize == old(allocSize)
    {
      hide Contents, Capacity;
      var rest := CopyIntoExisting(data);
      TakeThenDrop(old(Pending()), data, |data| - rest);
      if rest == 0 {
        return true;
      }
      ok := CopyIntoNew(data[|data| - rest..]);
    }

    /** `checkWaterLevel` with `reduceFreeCK`: give free chunks back, oldest first, and no more than
        it takes to meet the resident size. */
    method CheckWaterLevel()
      requires Valid()
      modifies this`free, this`freeCapacity, this`allocSize
      ensures Valid() && |free| <= old(|free|) && free == old(free)[old(|free|) - |free|..]
      ensures allocSize <= residentSize || free == []
      ensures Trimmed() && allocSize <= old(allocSize)
      ensures old(allocSize) <= residentSize ==> free == old(free) && allocSize == old(allocSize)
      ensures |free| < old(|free|) ==>
                residentSize < allocSize + |old(free)[old(|free|) - |free| - 1].block| + CHUNK_HEADER
    {
      ghost var k := 0;
      while residentSize < allocSize && free != []
        invariant Valid() && k <= old(|free|) && free == old(free)[k..]
        invariant k > 0 ==> residentSize < allocSize + |old(free)[k - 1].block| + CHUNK_HEADER
        invariant allocSize <= old(allocSize) && (k == 0 ==> allocSize == old(allocSize))
        invariant old(allocSize) <= residentSize ==> k == 0
        decreases |free|
      {
        var c := free[0];
        free := free[1..];
        allocSize := allocSize - (|c.block| + CHUNK_HEADER);
        freeCapacity := freeCapacity - |c.block|;
        k := k + 1;
      }
    }

    /** The front ready chunk, emptied, becomes the last free one. */
    method RecycleFront()
      requires Valid() && ready != []
      modifies this`ready, this`free, this`freeCapacity
      ensures Valid() && ready == old(ready)[1..] && free == old(free) + [old(ready)[0].(lOfs := 0, rOfs := 0)]
    {
      hide Contents;
      var c := ready[0].(lOfs := 0, rOfs := 0);
      CapacitySnoc(free, c);
      ready, free := ready[1..], free + [c];
      freeCapacity := freeCapacity + |c.block|;
    }

    /** `resetChunks`. */
    method ResetChunks()
      requires Valid()
      modifies this
      ensures Valid() && Trimmed() && ready == [] && Pending() == []
      ensures allocSize <= old(allocSize)
      ensures old(allocSize) <= residentSize ==>
                allocSize == old(allocSize) && free == old(free) + Emptied(old(ready))
    {
      hide Contents, Capacity;
      while ready != []
        invariant Valid() && allocSize == old(allocSize)
        invariant free + Emptied(ready) == old(free) + Emptied(old(ready))
        decreases |ready|
      {
        Assoc(free, [ready[0].(lOfs := 0, rOfs := 0)], Emptied(ready[1..]));
        RecycleFront();
      }
      CheckWaterLevel();
    }

    /** One turn of the drain loop: offer the unread part of the first ready chunk. */
    method DrainFront(pipe: Pipe) returns (ret: int)
      requires Valid() && ready != []
      modifies this`ready, this`free, this`freeCapacity, pipe`writing, pipe`wire, pipe`pos
      ensures Valid()
      ensures var sizes, r := old(Sizes(ready)), SendAll(pipe.script, old(pipe.pos), old(Sizes(ready))[0]);
              && ret == (if r.status == Broken then -1 else r.sent)
              && r.sent <= |old(Pending())|
              && pipe.wire == old(pipe.wire) + old(Pending())[..r.sent]
              && pipe.pos == r.pos
              && pipe.writing == (if r.status == Broken then old(pipe.writing) else r.status == Blocked)
              && (ret <= 0 ==> r.status != Complete)
              && (ret > 0 ==> Pending() == old(Pending())[ret..])
              && (ret > 0 ==> Sizes(ready) == if r.status == Complete then sizes[1..] else [sizes[0] - ret] + sizes[1..])
      ensures ret <= 0 ==> ready == old(ready) && free == old(free) && freeCapacity == old(freeCapacity)
    {
      hide SendAll;
      var cur := ready[0];
      ghost var later := Contents(ready[1..]);
      assert Pending() == cur.Data() + later;
      ret := pipe.WriteData(cur.Data());
      if ret <= 0 {
        return;
      } else if ret == cur.rOfs - cur.lOfs {
        var c := cur.(lOfs := 0, rOfs := 0);
        freeCapacity := freeCapacity + |c.block|;
        free := [c] + free;
        ready := ready[1..];
      } else {
        var c := cur.(lOfs := cur.lOfs + ret);
        assert c.Data() == cur.Data()[ret..];
        assert ([c] + ready[1..])[1..] == ready[1..];
        ready := [c] + ready[1..];
      }
    }

    lemma SizesPositive()
      requires Valid()
      ensures Positive(Sizes(ready)) && Total(Sizes(ready)) == |Pending()|
    {
      hide Sizes, Contents;
      SizesTotal(ready);
      forall i | 0 <= i < |ready| ensures Sizes(ready)[i] > 0 {
        SizesAt(ready, i);
      }
    }

    /** Part of the way through a drain of `pending`: `sent` bytes of it are on the wire. */
    ghost predicate MidDrain(pipe: Pipe, wire: Bytes, pending: Bytes, all: seq<nat>, whole: SendRun, sent: nat)
      reads this, pipe
    {
      && Valid() && sent <= |pending| && Pending() == pending[sent..] && pipe.wire == wire + pending[..sent]
      && Left(pipe.script, all, whole, sent, pipe.pos, Sizes(ready))
    }

    /** One turn of the loop. */
    method DrainTurn(pipe: Pipe, ghost wire: Bytes, ghost pending: Bytes, ghost all: seq<nat>, ghost whole: SendRun,
                     ghost sent: nat)
      returns (ret: int)
      requires MidDrain(pipe, wire, pending, all, whole, sent) && ready != []
      modifies this`ready, this`free, this`freeCapacity, pipe`writing, pipe`wire, pipe`pos
      ensures ret > 0 ==> MidDrain(pipe, wire, pending, all, whole, sent + ret) && (ready == [] ==> !pipe.writing)
      ensures ret <= 0 ==>
                && Valid() && ready == old(ready) && whole.sent <= |pending| && pipe.wire == wire + pending[..whole.sent]
                && ret == (if whole.status == Broken then -1 else 0) && whole.status != Complete
                && (ret == 0 ==> whole.sent == sent && pipe.writing)
    {
      hide Contents, Capacity, Sizes, SendAll, Drain, Left, Unsent, Positive, Total;
      ghost var turn := SendAll(pipe.script, pipe.pos, Sizes(ready)[0]);
      LeftTurn(pipe.script, all, whole, sent, pipe.pos, Sizes(ready));
      ret := DrainFront(pipe);
      TakeThenTake(wire, pending, sent, turn.sent);
      DropThenDrop(pending, sent, turn.sent);
    }

    /** `drainOutWithPipe`: 0 when the buffer is empty or the socket would block, -1 on an error. */
    method DrainOutWithPipe(pipe: Pipe) returns (ret: int)
      requires Valid() && Trimmed()
      modifies this, pipe`writing, pipe`wire, pipe`pos
      ensures Valid() && Trimmed() && allocSize <= old(allocSize)
      ensures var r := Drain(pipe.script, old(pipe.pos), old(Sizes(ready)));
              && r.sent <= |old(Pending())|
              && ret == (if r.status == Broken then -1 else 0)
              && pipe.wire == old(pipe.wire) + old(Pending())[..r.sent]
              && (ret == 0 ==> Pending() == old(Pending())[r.sent..])
              && (ret == 0 ==> (Pending() != [] <==> r.status == Blocked))
              && (ret == 0 ==> Sizes(ready) == Unsent(old(Sizes(ready)), r.sent))
              && (ret == 0 ==> pipe.writing == if old(ready) == [] then old(pipe.writing) else r.status == Blocked)
    {
      hide Contents, Capacity, Sizes, Drain, Left, Unsent, Positive, Total;
      ghost var wire, pending, all := pipe.wire, Pending(), Sizes(ready);
      ghost var whole, sent := Drain(pipe.script, pipe.pos, all), 0;
      SizesPositive();
      StartLeft(pipe.script, pipe.pos, all);
      if ready == [] {
        LeftTurn(pipe.script, all, whole, 0, pipe.pos, []);
        return 0;
      }
      while ready != []
        invariant MidDrain(pipe, wire, pending, all, whole, sent) && allocSize == old(allocSize)
        invariant ready == [] ==> !pipe.writing
        decreases |pending| - sent
      {
        LeftIs(pipe.script, all, whole, sent, pipe.pos, Sizes(ready));
        ret := DrainTurn(pipe, wire, pending, all, whole, sent);
        if ret <= 0 {
          return;
        }
        sent := sent + ret;
      }
      LeftTurn(pipe.script, all, whole, sent, pipe.pos, []);
      CheckWaterLevel();
      ret := 0;
    }

    /** `useExistingChunk`, with its 32-bit subtraction. */
    function UseExistingChunk(length: nat): (r: bool)
      requires Valid() && length < TWO_32
      reads this
    {
      if ready == [] then freeCapacity >= length
      else BackRoom() >= length && freeCapacity >= Wrap32(length - BackRoom())
    }

    /** What `checkCapacity` lets in: what keeps the allocation below its limit, and besides that
        only what an idle buffer holds already or what exactly fills the last ready chunk. */
    ghost predicate Fits(length: nat)
      requires Valid()
      reads this
    {
      || allocSize + length <= maxSize
      || (ready == [] && length <= Avail())
      || (ready != [] && length == BackRoom())
    }

    /** `checkCapacity`. The documentation promises that only what is too large for `maxSize` is
        refused; because the subtraction wraps, a length that fits behind the last ready chunk
        with room to spare is refused too once the buffer is full, and because the sum wraps, one
        that brings it to 2^32 is let in. */
    method CheckCapacity(length: nat) returns (ok: bool)
      requires Valid() && length < TWO_32 && allocSize < TWO_32
      ensures ok <==> Fits(length) || (allocSize + length >= TWO_32 && allocSize + length - TWO_32 <= maxSize)
      ensures Fits(length) ==> length <= Avail() || allocSize + length <= maxSize
    {
      hide Capacity;
      RoomIsAllocated();
      ok := UseExistingChunk(length) || Wrap32(allocSize + length) <= maxSize;
    }
  }

  /** Construction as callers see it: the exception of `Chunks::Chunks` is the null result. */
  method NewChunks(max: nat, resident: nat) returns (c: Chunks?)
    ensures c == null <==> max < resident
    ensures c != null ==> fresh(c) && c.Valid() && c.Trimmed() && c.ready == [] && c.free == []
  {
    if max < resident {
      return null;
    }
    c := new Chunks(max, resident);
  }

  /** A buffer of one kilobyte that holds one byte: there is room for 1011 more behind it, and two
      more are refused. */
  method RefusesWhatFits() returns (c: Chunks, ok: bool)
    ensures c.Valid() && c.Avail() == 1011 && !ok && !c.Fits(2)
  {
    c := new Chunks(1024, 0);
    var _ := c.CopyDataIntoChunks([0]);
    ok := c.CheckCapacity(2);
  }

  /** The same buffer lets in a length that brings the 32-bit sum back to 0. */
  method AdmitsWrappedSum() returns (c: Chunks, ok: bool)
    ensures c.Valid() && ok && !c.Fits(TWO_32 - 1024)
  {
    c := new Chunks(1024, 0);
    var _ := c.CopyDataIntoChunks([0]);
    ok := c.CheckCapacity(TWO_32 - 1024);
  }
}
