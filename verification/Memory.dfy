/** The machine's byte-addressed memory; a byte that was never written reads as zero. */
module Memory {
  import opened Common

  type Mem = map<int, byte>

  function Peek(m: Mem, at: int): byte {
    if at in m then m[at] else 0
  }

  function Load(m: Mem, at: int, count: nat): (data: seq<byte>)
    ensures |data| == count && forall i :: 0 <= i < count ==> data[i] == Peek(m, at + i)
  {
    seq<byte>(count, i => Peek(m, at + i))
  }

  function Store(m: Mem, at: int, data: seq<byte>): Mem {
    if data == [] then m else Store(m, at, data[..|data| - 1])[at + |data| - 1 := data[|data| - 1]]
  }

  /** What was stored is what is read back, and nothing else changed. */
  lemma {:induction false} StoreLoad(m: Mem, at: int, data: seq<byte>)
    ensures Load(Store(m, at, data), at, |data|) == data
    ensures forall a :: a < at || a >= at + |data| ==> Peek(Store(m, at, data), a) == Peek(m, a)
  {
    if data != [] {
      var front := data[..|data| - 1];
      StoreLoad(m, at, front);
      var m' := Store(m, at, front);
      assert forall i :: 0 <= i < |front| ==> Load(m', at, |front|)[i] == Peek(m', at + i);
    }
  }
}
