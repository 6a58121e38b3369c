/** Bulk OUT endpoints of the USB device: what each locked region does to one endpoint and to
    the registers the guest sees. Sources: scripts/lib/renode/platforms/models/NRF_USBD_Full.cs. */
module BulkOut {
  import opened Common

  /** Bulk endpoints are 1..7; endpoint 0 is the control endpoint. */
  type EpNum = n: int | 1 <= n < 8 witness 1

  /** One bulk OUT endpoint: queued bytes, the chunk offered to the guest, the value behind
      SIZE.EPOUT[n] (the register shows its low seven bits) and the OUT bit of EPDATASTATUS. */
  datatype OutEp = OutEp(queue: seq<byte>, presented: Option<seq<byte>>, size: nat, status: bool)

  const EMPTY_EP := OutEp([], None, 0, false)

  /** How a presented chunk leaves the endpoint: by DMA (`tail` is what MAXCNT cut off) or by a
      write to SIZE.EPOUT[n]. */
  datatype Retired = Dma(data: seq<byte>, tail: seq<byte>) | Dropped(chunk: seq<byte>)

  function PresentedBytes(ep: OutEp): seq<byte> {
    if ep.presented.Some? then ep.presented.value else []
  }

  function Pending(ep: OutEp): seq<byte> {
    PresentedBytes(ep) + ep.queue
  }

  function RetiredBytes(r: Retired): seq<byte> {
    match r
    case Dma(data, tail) => data + tail
    case Dropped(chunk) => chunk
  }

  function AllRetired(rs: seq<Retired>): seq<byte> {
    if rs == [] then [] else AllRetired(rs[..|rs| - 1]) + RetiredBytes(rs[|rs| - 1])
  }

  /** The bytes that reached guest memory. */
  function Delivered(rs: seq<Retired>): seq<byte> {
    if rs == [] then []
    else Delivered(rs[..|rs| - 1]) + (if rs[|rs| - 1].Dma? then rs[|rs| - 1].data else [])
  }

  predicate CanPresent(ep: OutEp) {
    ep.presented.None? && ep.queue != []
  }

  function Present(ep: OutEp, mps: nat): OutEp {
    if CanPresent(ep) then
      var count := Min(mps, |ep.queue|);
      OutEp(ep.queue[count..], Some(ep.queue[..count]), count, true)
    else ep
  }

  function Enqueue(ep: OutEp, data: seq<byte>): OutEp {
    ep.(queue := ep.queue + data)
  }

  /** STARTEPOUT[n]: DMA the presented chunk, cut at MAXCNT, and present the next one. */
  function Start(ep: OutEp, maxCnt: nat, mps: nat): (OutEp, seq<Retired>) {
    if ep.presented.None? then (ep, [])
    else
      var chunk := ep.presented.value;
      var count := Min(|chunk|, maxCnt);
      (Present(ep.(presented := None, size := 0), mps), [Dma(chunk[..count], chunk[count..])])
  }

  /** A write to SIZE.EPOUT[n]: drop the presented chunk and present the next one. */
  function Drop(ep: OutEp, mps: nat): (OutEp, seq<Retired>) {
    (Present(ep.(presented := None, size := 0), mps),
     if ep.presented.Some? then [Dropped(ep.presented.value)] else [])
  }

  /** OUT coherence: nothing presented means nothing queued, and the size kept for SIZE.EPOUT[n] is
      the length of the presented chunk, at most one packet. */
  predicate Coherent(ep: OutEp, mps: nat) {
    && (ep.presented.None? ==> ep.queue == [] && ep.size == 0)
    && (ep.presented.Some? ==> 0 < ep.size == |ep.presented.value| <= mps)
  }

  lemma PresentKeepsBytes(ep: OutEp, mps: nat)
    requires mps > 0 && (ep.presented.None? ==> ep.size == 0)
    requires ep.presented.Some? ==> Coherent(ep, mps)
    ensures Coherent(Present(ep, mps), mps)
    ensures Pending(Present(ep, mps)) == Pending(ep)
  {
    if CanPresent(ep) {
      var count := Min(mps, |ep.queue|);
      TakeDrop(ep.queue, count);
    }
  }

  /** A first write of at most one packet is presented whole. */
  lemma OnePacket(data: seq<byte>, mps: nat)
    requires 0 < |data| <= mps
    ensures Present(Enqueue(EMPTY_EP, data), mps) == OutEp([], Some(data), |data|, true)
  {
    assert [] + data == data && data[..|data|] == data;
  }

  /** A DMA of the last chunk leaves the endpoint empty. */
  lemma LastChunkTaken(ep: OutEp, chunk: seq<byte>, maxCnt: nat, mps: nat)
    requires ep.queue == [] && ep.presented == Some(chunk) && maxCnt <= |chunk|
    ensures Start(ep, maxCnt, mps) == (EMPTY_EP.(status := ep.status), [Dma(chunk[..maxCnt], chunk[maxCnt..])])
  {
  }

  /** Queueing and presenting adds bytes behind what is pending, coherent or not. */
  lemma PresentAdds(ep: OutEp, data: seq<byte>, mps: nat)
    ensures Pending(Present(Enqueue(ep, data), mps)) == Pending(ep) + data
  {
    var queued := Enqueue(ep, data);
    if CanPresent(queued) {
      TakeDrop(queued.queue, Min(mps, |queued.queue|));
      assert [] + ep.queue == ep.queue;
    } else {
      Assoc(PresentedBytes(ep), ep.queue, data);
    }
  }

  /** HandleHostToDeviceData keeps coherence and adds exactly the host's bytes. */
  lemma HostWriteConserves(ep: OutEp, data: seq<byte>, mps: nat)
    requires mps > 0 && Coherent(ep, mps)
    ensures var e := Present(Enqueue(ep, data), mps);
            Coherent(e, mps) && Pending(e) == Pending(ep) + data
  {
    PresentKeepsBytes(Enqueue(ep, data), mps);
  }

  /** STARTEPOUT[n] keeps coherence and retires exactly the presented chunk. */
  lemma StartConserves(ep: OutEp, maxCnt: nat, mps: nat)
    requires mps > 0 && Coherent(ep, mps)
    ensures var (e, r) := Start(ep, maxCnt, mps);
            Coherent(e, mps) && Pending(ep) == AllRetired(r) + Pending(e)
  {
    PresentKeepsBytes(ep.(presented := None, size := 0), mps);
    if ep.presented.Some? {
      var chunk := ep.presented.value;
      var count := Min(|chunk|, maxCnt);
      RetiredOne(Dma(chunk[..count], chunk[count..]));
      TakeDrop(chunk, count);
    }
  }

  /** A SIZE.EPOUT[n] write keeps coherence and retires exactly the presented chunk. */
  lemma DropConserves(ep: OutEp, mps: nat)
    requires mps > 0 && Coherent(ep, mps)
    ensures var (e, r) := Drop(ep, mps);
            Coherent(e, mps) && Pending(ep) == AllRetired(r) + Pending(e)
  {
    PresentKeepsBytes(ep.(presented := None, size := 0), mps);
    if ep.presented.Some? {
      RetiredOne(Dropped(ep.presented.value));
    }
  }

  /** Of the presented chunk STARTEPOUT[n] delivers the first MAXCNT bytes, and what was queued behind
      the chunk is what stays pending. */
  lemma StartDelivers(ep: OutEp, maxCnt: nat, mps: nat)
    requires mps > 0 && Coherent(ep, mps)
    ensures var (e, r) := Start(ep, maxCnt, mps);
            Delivered(r) == PresentedBytes(ep)[..Min(maxCnt, |PresentedBytes(ep)|)] && Pending(e) == ep.queue
  {
    PresentKeepsBytes(ep.(presented := None, size := 0), mps);
    assert [] + ep.queue == ep.queue;
    if ep.presented.Some? {
      DeliveredOne(Start(ep, maxCnt, mps).1[0]);
    }
  }

  /** A SIZE.EPOUT[n] write delivers nothing, and it drops the presented chunk and no queued byte. */
  lemma DropDiscards(ep: OutEp, mps: nat)
    requires mps > 0 && Coherent(ep, mps)
    ensures var (e, r) := Drop(ep, mps);
            Delivered(r) == [] && AllRetired(r) == PresentedBytes(ep) && Pending(e) == ep.queue
  {
    PresentKeepsBytes(ep.(presented := None, size := 0), mps);
    assert [] + ep.queue == ep.queue;
    if ep.presented.Some? {
      RetiredOne(Dropped(ep.presented.value));
      assert [Dropped(ep.presented.value)][..0] == [];
    }
  }

  lemma RetiredOne(r: Retired)
    ensures AllRetired([r]) == RetiredBytes(r)
  {
    assert [r][..0] == [];
  }

  lemma DeliveredOne(r: Retired)
    requires r.Dma?
    ensures Delivered([r]) == r.data
  {
    assert [r][..0] == [] && [] + r.data == r.data;
  }

  lemma {:induction false} RetiredAppend(a: seq<Retired>, b: seq<Retired>)
    ensures AllRetired(a + b) == AllRetired(a) + AllRetired(b)
  {
    if b == [] {
      assert a + b == a;
    } else {
      assert (a + b)[..|a + b| - 1] == a + b[..|b| - 1];
      RetiredAppend(a, b[..|b| - 1]);
    }
  }

  // ------------------------------------------------------------------ the drain bound

  /** STARTEPOUT tasks still needed: one for the presented chunk, one per further packet. */
  function DrainTasks(ep: OutEp, mps: nat): nat
    requires mps > 0
  {
    (if ep.presented.Some? then 1 else 0) + CeilDiv(|ep.queue|, mps)
  }

  function StartAll(ep: OutEp, maxCnts: seq<Bits7>, mps: nat): OutEp
    decreases |maxCnts|
  {
    if maxCnts == [] then ep else StartAll(Start(ep, maxCnts[0], mps).0, maxCnts[1..], mps)
  }

  lemma StartShrinks(ep: OutEp, maxCnt: nat, mps: nat)
    requires mps > 0 && Coherent(ep, mps) && ep.presented.Some?
    ensures var e := Start(ep, maxCnt, mps).0;
            Coherent(e, mps) && |Pending(e)| < |Pending(ep)| && DrainTasks(e, mps) == DrainTasks(ep, mps) - 1
  {
    StartConserves(ep, maxCnt, mps);
  }

  /** With no new host bytes the endpoint is empty after a run of STARTEPOUT tasks exactly when
      there were at least DrainTasks of them, whatever MAXCNT each used. */
  lemma {:induction false} DrainBound(ep: OutEp, maxCnts: seq<Bits7>, mps: nat)
    requires mps > 0 && Coherent(ep, mps)
    ensures var e := StartAll(ep, maxCnts, mps);
            && Coherent(e, mps)
            && DrainTasks(e, mps) == DrainTasks(ep, mps) - Min(|maxCnts|, DrainTasks(ep, mps))
            && (Pending(e) == [] <==> |maxCnts| >= DrainTasks(ep, mps))
    decreases |maxCnts|
  {
    if maxCnts != [] {
      if ep.presented.Some? {
        StartShrinks(ep, maxCnts[0], mps);
      }
      DrainBound(Start(ep, maxCnts[0], mps).0, maxCnts[1..], mps);
    }
  }
}
