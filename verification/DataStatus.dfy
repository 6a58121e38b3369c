/** The data-endpoint half of the USB device as the guest's interrupt handler sees it: seven bulk
    OUT endpoints, EPDATASTATUS and EVENTS_EPDATA. Each function is one step that no other thread
    can split: the body of one `lock(outLock)`, one register access, or one SetEvent. */
module DataStatus {
  import opened Common
  import opened BulkOut

  /** EPDATASTATUS as the set of its one bits: EPINn is bit n, EPOUTn is bit 16 + n. */
  type Word = set<nat>

  datatype Usbd = Usbd(mps: nat, out: map<EpNum, OutEp>, inStatus: set<EpNum>, epData: bool)

  predicate Wf(d: Usbd) {
    d.mps > 0 && forall n: EpNum :: n in d.out
  }

  function OutBit(n: EpNum): nat { 16 + n }

  function StatusWord(d: Usbd): Word
    requires Wf(d)
  {
    set b: nat | b < 24 && ((1 <= b < 8 && b in d.inStatus) || (17 <= b && d.out[b - 16].status))
  }

  /** HandleHostToDeviceData, up to the end of its lock; the flag says whether EPDATA follows. */
  function HostWrite(d: Usbd, n: EpNum, data: seq<byte>): (Usbd, bool)
    requires Wf(d)
  {
    if data == [] then (d, false)
    else
      var ep := Enqueue(d.out[n], data);
      (d.(out := d.out[n := Present(ep, d.mps)]), CanPresent(ep))
  }

  /** StartBulkEpOut, up to the end of its lock. */
  function StartOut(d: Usbd, n: EpNum, maxCnt: Bits7): (Usbd, seq<Retired>, bool)
    requires Wf(d)
  {
    var (ep, r) := Start(d.out[n], maxCnt, d.mps);
    (d.(out := d.out[n := ep]), r, r != [] && ep.presented.Some?)
  }

  /** A write to SIZE.EPOUT[n], up to the end of its lock. */
  function DropOut(d: Usbd, n: EpNum): (Usbd, seq<Retired>, bool)
    requires Wf(d)
  {
    var (ep, r) := Drop(d.out[n], d.mps);
    (d.(out := d.out[n := ep]), r, ep.presented.Some?)
  }

  /** A write to EPDATASTATUS: the bits written as one are cleared, the others are kept. */
  function AckStatus(d: Usbd, word: Word): Usbd {
    d.(inStatus := (set n | n in d.inStatus && n !in word),
       out := map n | n in d.out :: if OutBit(n) in word then d.out[n].(status := false) else d.out[n])
  }

  /** DataAcknowledged for a bulk IN endpoint. */
  function AckIn(d: Usbd, n: EpNum): Usbd {
    d.(inStatus := d.inStatus + {n}, epData := true)
  }

  /** The same initial value for each of the seven bulk endpoints. */
  function PerEndpoint<T>(v: T): (m: map<EpNum, T>)
    ensures forall n: EpNum :: n in m && m[n] == v
  {
    map[1 := v, 2 := v, 3 := v, 4 := v, 5 := v, 6 := v, 7 := v]
  }

  function ResetDevice(d: Usbd): Usbd {
    d.(out := PerEndpoint(EMPTY_EP), inStatus := {}, epData := false)
  }

  /** What a host write adds, told without the endpoint's inner state: the bytes go behind what is
      pending, and EPDATA follows exactly when they arrive and nothing is presented. */
  lemma HostWriteAdds(d: Usbd, n: EpNum, data: seq<byte>)
    requires Wf(d)
    ensures var (t, raised) := HostWrite(d, n, data);
            && Pending(t.out[n]) == Pending(d.out[n]) + data
            && (forall m: EpNum :: m != n ==> t.out[m] == d.out[m])
            && t.mps == d.mps && t.inStatus == d.inStatus && t.epData == d.epData
            && (raised <==> data != [] && d.out[n].presented.None?)
  {
    if data == [] {
      assert Pending(d.out[n]) + [] == Pending(d.out[n]);
    } else {
      PresentAdds(d.out[n], data, d.mps);
    }
  }

  lemma StatusWordBits(d: Usbd, n: EpNum)
    requires Wf(d)
    ensures n in StatusWord(d) <==> n in d.inStatus
    ensures OutBit(n) in StatusWord(d) <==> d.out[n].status
  {
  }

  /** Write-one-to-clear: exactly the acknowledged bits go, and no endpoint's data is touched. */
  lemma AckClearsExactly(d: Usbd, word: Word, n: EpNum)
    requires Wf(d)
    ensures Wf(AckStatus(d, word)) && StatusWord(AckStatus(d, word)) == StatusWord(d) - word
    ensures Pending(AckStatus(d, word).out[n]) == Pending(d.out[n])
    ensures AckStatus(d, word).out[n].size == d.out[n].size
  {
    var after := AckStatus(d, word);
    forall b: nat ensures b in StatusWord(after) <==> b in StatusWord(d) && b !in word {
      if 17 <= b < 24 {
        assert b == OutBit(b - 16);
      }
    }
  }
}
