/** The identity transform of the fake AES-CCM peripheral over memory, where the input and output
    records may overlap (scripts/lib/renode/platforms/models/ccm.py:115-187). */
module CcmTransform {
  import opened Common
  import opened Memory

  const MIC_LEN := 4
  const MIC_BYTE: byte := 0xA5
  /** Header, length and a padding byte precede the payload. */
  const PAY := 3

  datatype Op = Op(decrypt: bool, inptr: nat, outptr: nat)

  /** Why a transform ends; `Failed` is the exception of a length that no byte can hold. */
  datatype Outcome = Skipped | Done | Failed

  function InLength(m: Mem, op: Op): byte { Peek(m, op.inptr + 1) }

  /** How many payload bytes are copied for a length byte. */
  function PayloadLength(decrypt: bool, length: byte): byte {
    if !decrypt then length else if length < MIC_LEN then 0 else length - MIC_LEN
  }

  function Copied(m: Mem, op: Op): byte { PayloadLength(op.decrypt, InLength(m, op)) }

  /** Memory with the header copied, the output length written and the padding byte cleared. */
  function Headed(m: Mem, op: Op, length: byte): Mem {
    m[op.outptr := Peek(m, op.inptr)][op.outptr + 1 := length][op.outptr + 2 := 0]
  }

  /** The byte-by-byte copy loop, lowest address first. */
  function Copy(m: Mem, source: int, target: int, n: nat): Mem {
    if n == 0 then m
    else
      var before := Copy(m, source, target, n - 1);
      before[target + n - 1 := Peek(before, source + n - 1)]
  }

  function Mic(m: Mem, at: int, n: nat): Mem {
    if n == 0 then m else Mic(m, at, n - 1)[at + n - 1 := MIC_BYTE]
  }

  function Transform(m: Mem, op: Op): (Mem, Outcome) {
    var length, n := InLength(m, op), Copied(m, op);
    if op.inptr == 0 || op.outptr == 0 then (m, Skipped)
    else if length == 0 then (m[op.outptr := Peek(m, op.inptr)][op.outptr + 1 := 0], Done)
    else if op.decrypt then (Copy(Headed(m, op, n), op.inptr + PAY, op.outptr + PAY, n), Done)
    else if length + MIC_LEN > 255 then (m[op.outptr := Peek(m, op.inptr)], Failed)
    else (Mic(Copy(Headed(m, op, length + MIC_LEN), op.inptr + PAY, op.outptr + PAY, n),
              op.outptr + PAY + length, MIC_LEN), Done)
  }

  // ------------------------------------------------------------- the copy under aliasing

  lemma {:induction false} CopyElsewhere(m: Mem, source: int, target: int, n: nat)
    ensures forall a :: a < target || a >= target + n ==> Peek(Copy(m, source, target, n), a) == Peek(m, a)
  {
    if n > 0 {
      CopyElsewhere(m, source, target, n - 1);
    }
  }

  /** The `j`-th byte is what its source held when the loop got there. */
  lemma {:induction false} CopyByte(m: Mem, source: int, target: int, n: nat, j: nat)
    requires j < n
    ensures Peek(Copy(m, source, target, n), target + j) == Peek(Copy(m, source, target, j), source + j)
  {
    if j < n - 1 {
      CopyByte(m, source, target, n - 1, j);
    }
  }

  lemma {:induction false} MicAt(m: Mem, at: int, n: nat)
    ensures forall a :: Peek(Mic(m, at, n), a) == if at <= a < at + n then MIC_BYTE else Peek(m, a)
  {
    if n > 0 {
      MicAt(m, at, n - 1);
    }
  }

  /** Copying upwards is safe when the target starts at or below the source, or past its end. */
  lemma CopyMoves(m: Mem, source: int, target: int, n: nat)
    requires target <= source || target >= source + n
    ensures Load(Copy(m, source, target, n), target, n) == Load(m, source, n)
  {
    var t := Copy(m, source, target, n);
    forall j | 0 <= j < n ensures Load(t, target, n)[j] == Load(m, source, n)[j] {
      CopyByte(m, source, target, n, j);
      CopyElsewhere(m, source, target, j);
    }
  }

  /** The output record starts at or below the input record, or after the bytes it copies. */
  predicate Safe(inptr: nat, outptr: nat, n: nat) {
    n == 0 || outptr <= inptr || outptr >= inptr + 3 + n
  }

  /** The output length fits a byte. */
  predicate Fits(op: Op, length: byte) { op.decrypt || length <= 251 }

  /** What the output record should hold after a transform of `m`: header, adjusted length and a zero,
      then the payload, which starts three bytes into the input record; the MIC is four bytes long, and
      encryption appends 0xA5 four times. */
  function Expected(m: Mem, op: Op): seq<byte>
    requires Fits(op, Peek(m, op.inptr + 1))
  {
    var header, length := Peek(m, op.inptr), Peek(m, op.inptr + 1);
    var shorter: byte := if length < 4 then 0 else length - 4;
    if length == 0 then [header, 0]
    else if op.decrypt then [header, shorter, 0] + Load(m, op.inptr + 3, shorter)
    else [header, length + 4, 0] + Load(m, op.inptr + 3, length) + [0xA5, 0xA5, 0xA5, 0xA5]
  }

  lemma HeadWrites(m: Mem, op: Op, lengthField: byte)
    ensures var h := Headed(m, op, lengthField);
            && Load(h, op.outptr, PAY) == [Peek(m, op.inptr), lengthField, 0]
            && (forall a :: a < op.outptr || a >= op.outptr + PAY ==> Peek(h, a) == Peek(m, a))
            && (forall n: nat :: Safe(op.inptr, op.outptr, n) ==>
                  Load(h, op.inptr + PAY, n) == Load(m, op.inptr + PAY, n))
  {
  }

  lemma HeadedCopy(m: Mem, op: Op, lengthField: byte, n: nat)
    requires Safe(op.inptr, op.outptr, n)
    ensures var h := Headed(m, op, lengthField);
            var t := Copy(h, op.inptr + PAY, op.outptr + PAY, n);
            && Load(t, op.outptr, PAY) == [Peek(m, op.inptr), lengthField, 0]
            && Load(t, op.outptr + PAY, n) == Load(m, op.inptr + PAY, n)
            && forall a :: a < op.outptr || a >= op.outptr + PAY + n ==> Peek(t, a) == Peek(m, a)
  {
    HeadWrites(m, op, lengthField);
    var h := Headed(m, op, lengthField);
    CopyMoves(h, op.inptr + PAY, op.outptr + PAY, n);
    CopyElsewhere(h, op.inptr + PAY, op.outptr + PAY, n);
    var t := Copy(h, op.inptr + PAY, op.outptr + PAY, n);
    assert Load(t, op.outptr, PAY) == Load(h, op.outptr, PAY);
  }

  lemma LoadAppend(m: Mem, at: int, a: nat, b: nat)
    ensures Load(m, at, a + b) == Load(m, at, a) + Load(m, at + a, b)
  {
  }

  ghost predicate HoldsExactly(m: Mem, t: Mem, op: Op)
    requires Fits(op, InLength(m, op))
  {
    && Load(t, op.outptr, |Expected(m, op)|) == Expected(m, op)
    && forall a :: a < op.outptr || a >= op.outptr + |Expected(m, op)| ==> Peek(t, a) == Peek(m, a)
  }

  lemma EncryptIsExact(m: Mem, op: Op)
    requires op.inptr != 0 && op.outptr != 0 && !op.decrypt && 0 < InLength(m, op) && Fits(op, InLength(m, op))
    requires Safe(op.inptr, op.outptr, InLength(m, op))
    ensures Transform(m, op).1 == Done && HoldsExactly(m, Transform(m, op).0, op)
  {
    var length := InLength(m, op);
    BodyIsExact(m, op, length);
    MicAppends(Copy(Headed(m, op, length + MIC_LEN), op.inptr + PAY, op.outptr + PAY, length), op.outptr, PAY + length);
  }

  lemma BodyIsExact(m: Mem, op: Op, length: byte)
    requires Safe(op.inptr, op.outptr, length) && length + MIC_LEN <= 255
    ensures var body := Copy(Headed(m, op, length + MIC_LEN), op.inptr + PAY, op.outptr + PAY, length);
            && Load(body, op.outptr, PAY + length) ==
               [Peek(m, op.inptr), length + MIC_LEN, 0] + Load(m, op.inptr + PAY, length)
            && forall a :: a < op.outptr || a >= op.outptr + PAY + length ==> Peek(body, a) == Peek(m, a)
  {
    HeadedCopy(m, op, length + MIC_LEN, length);
    LoadAppend(Copy(Headed(m, op, length + MIC_LEN), op.inptr + PAY, op.outptr + PAY, length), op.outptr, PAY, length);
  }

  lemma MicAppends(m: Mem, start: int, n: nat)
    ensures var t := Mic(m, start + n, MIC_LEN);
            && Load(t, start, n + MIC_LEN) == Load(m, start, n) + [MIC_BYTE, MIC_BYTE, MIC_BYTE, MIC_BYTE]
            && forall a :: a < start + n || a >= start + n + MIC_LEN ==> Peek(t, a) == Peek(m, a)
  {
    MicAt(m, start + n, MIC_LEN);
  }

  lemma DecryptIsExact(m: Mem, op: Op)
    requires op.inptr != 0 && op.outptr != 0 && op.decrypt && 0 < InLength(m, op)
    requires Safe(op.inptr, op.outptr, Copied(m, op))
    ensures Transform(m, op).1 == Done && HoldsExactly(m, Transform(m, op).0, op)
  {
    var n := Copied(m, op);
    HeadedCopy(m, op, n, n);
    LoadAppend(Transform(m, op).0, op.outptr, PAY, n);
  }

  /** For every placement that is Safe the output record holds header, adjusted length and the
      original payload, and nothing else changes; a length whose MIC fits no length byte is the one
      failure, and leaves only the header written. */
  lemma TransformIsExact(m: Mem, op: Op)
    requires op.inptr != 0 && op.outptr != 0 && Safe(op.inptr, op.outptr, Copied(m, op))
    ensures if Fits(op, InLength(m, op)) then
              Transform(m, op).1 == Done && HoldsExactly(m, Transform(m, op).0, op)
            else Transform(m, op) == (m[op.outptr := Peek(m, op.inptr)], Failed)
  {
    if !Fits(op, InLength(m, op)) {
      assert InLength(m, op) > 0;
    } else if InLength(m, op) == 0 {
      assert Load(Transform(m, op).0, op.outptr, 2) == [Peek(m, op.inptr), 0];
    } else if op.decrypt {
      DecryptIsExact(m, op);
    } else {
      EncryptIsExact(m, op);
    }
  }

  // ------------------------------------------------------------- which placements are safe

  ghost predicate PayloadSurvives(op: Op, length: byte) {
    forall m: Mem :: InLength(m, op) == length ==>
      Load(Transform(m, op).0, op.outptr + PAY, Copied(m, op)) == Load(m, op.inptr + PAY, Copied(m, op))
  }

  /** A memory whose payload is overwritten before it is copied: by the padding byte, by the length
      or by the header, depending on the distance. */
  function Spoiled(op: Op, length: byte, n: nat): Mem {
    if op.outptr + 2 < op.inptr + PAY + n then map[op.inptr + 1 := length, op.outptr + 2 := 1]
    else map[op.inptr := 1, op.inptr + 1 := length]
  }

  /** Byte `j` of the output payload is what the copy loop read for it. */
  lemma PayloadByte(m: Mem, op: Op, j: nat)
    requires op.inptr != 0 && op.outptr != 0 && Fits(op, InLength(m, op)) && j < Copied(m, op)
    ensures var h := Headed(m, op, if op.decrypt then Copied(m, op) else InLength(m, op) + MIC_LEN);
            Peek(Transform(m, op).0, op.outptr + PAY + j) ==
            Peek(Copy(h, op.inptr + PAY, op.outptr + PAY, j), op.inptr + PAY + j)
  {
    var length, n := InLength(m, op), Copied(m, op);
    var h := Headed(m, op, if op.decrypt then n else length + MIC_LEN);
    CopyByte(h, op.inptr + PAY, op.outptr + PAY, n, j);
    if !op.decrypt {
      MicAt(Copy(h, op.inptr + PAY, op.outptr + PAY, n), op.outptr + PAY + length, MIC_LEN);
    }
  }

  /** The last payload byte in front of the copy's target. */
  function SpoiledAt(op: Op, n: nat): int {
    if op.outptr + 2 < op.inptr + PAY + n then op.outptr - op.inptr - 1 else n - 1
  }

  lemma SpoiledByHeading(op: Op, length: byte, field: byte)
    requires !Safe(op.inptr, op.outptr, PayloadLength(op.decrypt, length)) && field != 0
    ensures var n := PayloadLength(op.decrypt, length);
            var m, j := Spoiled(op, length, n), SpoiledAt(op, n);
            && InLength(m, op) == length && 0 <= j < n && op.inptr + j < op.outptr
            && Peek(Headed(m, op, field), op.inptr + PAY + j) != Peek(m, op.inptr + PAY + j)
  {
  }

  lemma SpoiledIsLost(op: Op, length: byte)
    requires op.inptr != 0 && op.outptr != 0 && Fits(op, length)
    requires !Safe(op.inptr, op.outptr, PayloadLength(op.decrypt, length))
    ensures !PayloadSurvives(op, length)
  {
    var n := PayloadLength(op.decrypt, length);
    var m, j := Spoiled(op, length, n), SpoiledAt(op, n);
    var field: byte := if op.decrypt then n else length + MIC_LEN;
    SpoiledByHeading(op, length, field);
    PayloadByte(m, op, j);
    CopyElsewhere(Headed(m, op, field), op.inptr + PAY, op.outptr + PAY, j);
    assert Load(Transform(m, op).0, op.outptr + PAY, n)[j] != Load(m, op.inptr + PAY, n)[j];
  }

  /** The payload survives for every memory contents exactly when the placement is Safe. */
  lemma SafePlacements(op: Op, length: byte)
    requires op.inptr != 0 && op.outptr != 0 && Fits(op, length)
    ensures var n := PayloadLength(op.decrypt, length);
            PayloadSurvives(op, length) <==> Safe(op.inptr, op.outptr, n)
  {
    var n := PayloadLength(op.decrypt, length);
    if Safe(op.inptr, op.outptr, n) {
      forall m: Mem | InLength(m, op) == length
        ensures Load(Transform(m, op).0, op.outptr + PAY, Copied(m, op)) == Load(m, op.inptr + PAY, Copied(m, op))
      {
        if n > 0 {
          TransformIsExact(m, op);
          var t, out := Transform(m, op).0, Expected(m, op);
          assert out[PAY..PAY + n] == Load(m, op.inptr + PAY, n);
          assert Load(t, op.outptr + PAY, n) == Load(t, op.outptr, |out|)[PAY..PAY + n];
        }
      }
    } else {
      SpoiledIsLost(op, length);
    }
  }

  // ------------------------------------------------------------- over the air

  /** The record at `inptr` of `b` is the one the encryption left at `outptr`. */
  ghost predicate Transmitted(a: Mem, enc: Op, b: Mem, dec: Op)
    requires Fits(enc, InLength(a, enc))
  {
    Load(b, dec.inptr, |Expected(a, enc)|) == Load(Transform(a, enc).0, enc.outptr, |Expected(a, enc)|)
  }

  lemma ReceivedAsExpected(a: Mem, enc: Op, b: Mem, dec: Op)
    requires !enc.decrypt && enc.inptr != 0 && enc.outptr != 0 && Fits(enc, InLength(a, enc))
    requires Safe(enc.inptr, enc.outptr, InLength(a, enc)) && Transmitted(a, enc, b, dec)
    ensures Load(b, dec.inptr, |Expected(a, enc)|) == Expected(a, enc)
  {
    TransformIsExact(a, enc);
  }

  lemma TransmittedRecord(a: Mem, enc: Op, b: Mem, dec: Op)
    requires !enc.decrypt && Fits(enc, InLength(a, enc))
    requires Load(b, dec.inptr, |Expected(a, enc)|) == Expected(a, enc)
    ensures var length := InLength(a, enc);
            && Peek(b, dec.inptr) == Peek(a, enc.inptr)
            && Peek(b, dec.inptr + 1) == (if length == 0 then 0 else length + MIC_LEN)
            && Load(b, dec.inptr + PAY, length) == Load(a, enc.inptr + PAY, length)
  {
    var length, header := InLength(a, enc), Peek(a, enc.inptr);
    if length == 0 {
      RecordHolds(b, dec.inptr, [header, 0], [], []);
    } else {
      RecordHolds(b, dec.inptr, [header, length + MIC_LEN, 0], Load(a, enc.inptr + PAY, length),
                  [MIC_BYTE, MIC_BYTE, MIC_BYTE, MIC_BYTE]);
    }
  }

  lemma RecordHolds(m: Mem, at: int, head: seq<byte>, payload: seq<byte>, mic: seq<byte>)
    requires |head| >= 2 && var record := head + payload + mic; Load(m, at, |record|) == record
    ensures Peek(m, at) == head[0] && Peek(m, at + 1) == head[1] && Load(m, at + |head|, |payload|) == payload
  {
    var record := head + payload + mic;
    assert Load(m, at, |record|)[0] == Peek(m, at) && Load(m, at, |record|)[1] == Peek(m, at + 1);
    forall i | 0 <= i < |payload| ensures Load(m, at + |head|, |payload|)[i] == payload[i] {
      assert Load(m, at, |record|)[|head| + i] == record[|head| + i];
    }
  }

  /** Encrypting on one machine and decrypting the transmitted record on another restores header,
      length and payload; an empty record passes through both without a MIC. */
  lemma DecryptInvertsEncrypt(a: Mem, enc: Op, b: Mem, dec: Op)
    requires !enc.decrypt && dec.decrypt
    requires enc.inptr != 0 && enc.outptr != 0 && dec.inptr != 0 && dec.outptr != 0
    requires Fits(enc, InLength(a, enc)) && Safe(enc.inptr, enc.outptr, InLength(a, enc))
    requires Safe(dec.inptr, dec.outptr, InLength(a, enc)) && Transmitted(a, enc, b, dec)
    ensures var length := InLength(a, enc);
            var (t, outcome) := Transform(b, dec);
            && outcome == Done
            && Peek(t, dec.outptr) == Peek(a, enc.inptr) && Peek(t, dec.outptr + 1) == length
            && Load(t, dec.outptr + PAY, length) == Load(a, enc.inptr + PAY, length)
  {
    ReceivedAsExpected(a, enc, b, dec);
    TransmittedRecord(a, enc, b, dec);
    if InLength(a, enc) > 0 {
      DecryptPart(b, dec);
    }
  }

  lemma DecryptPart(b: Mem, dec: Op)
    requires dec.decrypt && dec.inptr != 0 && dec.outptr != 0 && InLength(b, dec) >= MIC_LEN
    requires Safe(dec.inptr, dec.outptr, Copied(b, dec))
    ensures var (t, outcome) := Transform(b, dec);
            var n := Copied(b, dec);
            && outcome == Done && Peek(t, dec.outptr) == Peek(b, dec.inptr) && Peek(t, dec.outptr + 1) == n
            && Load(t, dec.outptr + PAY, n) == Load(b, dec.inptr + PAY, n)
  {
    var t, n := Transform(b, dec).0, Copied(b, dec);
    HeadedCopy(b, dec, n, n);
    assert Load(t, dec.outptr, PAY)[0] == Peek(t, dec.outptr) && Load(t, dec.outptr, PAY)[1] == Peek(t, dec.outptr + 1);
  }

  // ------------------------------------------------------------- what the output depends on

  ghost predicate Agree(m: Mem, m': Mem, low: int, high: int) {
    forall a :: low <= a < high ==> Peek(m, a) == Peek(m', a)
  }

  /** Writing the same byte to the same place keeps two memories in agreement. */
  lemma WriteAgrees(m: Mem, m': Mem, low: int, high: int, at: int, v: byte)
    requires forall a :: low <= a < high && a != at ==> Peek(m, a) == Peek(m', a)
    ensures Agree(m[at := v], m'[at := v], low, high)
  {
    var t, t' := m[at := v], m'[at := v];
    forall a | low <= a < high ensures Peek(t, a) == Peek(t', a) {
      assert a != at ==> Peek(m, a) == Peek(m', a);
    }
  }

  lemma HeadedAgrees(m: Mem, m': Mem, op: Op, length: byte, low: int, high: int)
    requires Agree(m, m', low, high) && Peek(m, op.inptr) == Peek(m', op.inptr)
    ensures Agree(Headed(m, op, length), Headed(m', op, length), low, high)
  {
    var v := Peek(m, op.inptr);
    WriteAgrees(m, m', low, high, op.outptr, v);
    WriteAgrees(m[op.outptr := v], m'[op.outptr := v], low, high, op.outptr + 1, length);
    WriteAgrees(m[op.outptr := v][op.outptr + 1 := length], m'[op.outptr := v][op.outptr + 1 := length],
                low, high, op.outptr + 2, 0);
  }

  lemma {:induction false} CopyAgrees(m: Mem, m': Mem, source: int, target: int, n: nat, start: int, end: int)
    requires Agree(m, m', source, end) && source + n <= end && Agree(m, m', start, target)
    ensures Agree(Copy(m, source, target, n), Copy(m', source, target, n), source, end)
    ensures Agree(Copy(m, source, target, n), Copy(m', source, target, n), start, target + n)
  {
    if n > 0 {
      CopyAgrees(m, m', source, target, n - 1, start, end);
      var t, t' := Copy(m, source, target, n - 1), Copy(m', source, target, n - 1);
      assert Peek(t, source + n - 1) == Peek(t', source + n - 1);
      WriteAgrees(t, t', source, end, target + n - 1, Peek(t, source + n - 1));
      WriteAgrees(t, t', start, target + n, target + n - 1, Peek(t, source + n - 1));
    }
  }

  /** The addresses of the input record. */
  predicate Reads(m: Mem, op: Op, a: int) {
    op.inptr <= a < op.inptr + PAY + InLength(m, op)
  }

  /** The addresses of the output record; a failed operation has only its header. */
  predicate Writes(m: Mem, op: Op, a: int) {
    && op.inptr != 0 && op.outptr != 0
    && op.outptr <= a < op.outptr + if Fits(op, InLength(m, op)) then |Expected(m, op)| else 1
  }

  /** Wherever the records lie, no other byte is written. */
  lemma WritesOnlyTheRecord(m: Mem, op: Op, a: int)
    requires !Writes(m, op, a)
    ensures Peek(Transform(m, op).0, a) == Peek(m, a)
  {
    var length, n := InLength(m, op), Copied(m, op);
    if op.inptr != 0 && op.outptr != 0 && length > 0 && Fits(op, length) {
      var h := Headed(m, op, if op.decrypt then n else length + MIC_LEN);
      CopyElsewhere(h, op.inptr + PAY, op.outptr + PAY, n);
      if !op.decrypt {
        MicAt(Copy(h, op.inptr + PAY, op.outptr + PAY, n), op.outptr + PAY + length, MIC_LEN);
      }
    }
  }

  /** The output record and the outcome depend only on the input record, wherever the two lie. */
  lemma DependsOnlyOnInput(m: Mem, m': Mem, op: Op)
    requires forall a :: Reads(m, op, a) ==> Peek(m, a) == Peek(m', a)
    ensures InLength(m', op) == InLength(m, op) && Transform(m, op).1 == Transform(m', op).1
    ensures forall a :: Writes(m, op, a) ==> Peek(Transform(m, op).0, a) == Peek(Transform(m', op).0, a)
  {
    assert Reads(m, op, op.inptr) && Reads(m, op, op.inptr + 1);
    assert Peek(m, op.inptr) == Peek(m', op.inptr) && InLength(m, op) == InLength(m', op);
    if op.inptr != 0 && op.outptr != 0 && InLength(m, op) > 0 && Fits(op, InLength(m, op)) {
      BodiesAgree(m, m', op);
    }
  }

  lemma BodiesAgree(m: Mem, m': Mem, op: Op)
    requires InLength(m', op) == InLength(m, op) > 0 && op.inptr != 0 && op.outptr != 0 && Fits(op, InLength(m, op))
    requires forall a :: Reads(m, op, a) ==> Peek(m, a) == Peek(m', a)
    ensures Agree(Transform(m, op).0, Transform(m', op).0, op.outptr, op.outptr + |Expected(m, op)|)
  {
    var length, n := InLength(m, op), Copied(m, op);
    var field: byte := if op.decrypt then n else length + MIC_LEN;
    var h, h' := Headed(m, op, field), Headed(m', op, field);
    assert Reads(m, op, op.inptr) && Agree(m, m', op.inptr + PAY, op.inptr + PAY + length) by {
      forall a | op.inptr + PAY <= a < op.inptr + PAY + length ensures Peek(m, a) == Peek(m', a) {
        assert Reads(m, op, a);
      }
    }
    HeadedAgrees(m, m', op, field, op.inptr + PAY, op.inptr + PAY + length);
    CopyAgrees(h, h', op.inptr + PAY, op.outptr + PAY, n, op.outptr, op.inptr + PAY + length);
    if !op.decrypt {
      MicAt(Copy(h, op.inptr + PAY, op.outptr + PAY, n), op.outptr + PAY + length, MIC_LEN);
      MicAt(Copy(h', op.inptr + PAY, op.outptr + PAY, n), op.outptr + PAY + length, MIC_LEN);
    }
  }

  // ------------------------------------------------------------- the same memory, and one byte elsewhere

  ghost predicate SameMemory(m: Mem, m': Mem) {
    forall a :: Peek(m, a) == Peek(m', a)
  }

  lemma SameInSameOut(m: Mem, m': Mem, op: Op)
    requires SameMemory(m, m')
    ensures Transform(m, op).1 == Transform(m', op).1 && SameMemory(Transform(m, op).0, Transform(m', op).0)
  {
    DependsOnlyOnInput(m, m', op);
    forall a ensures Peek(Transform(m, op).0, a) == Peek(Transform(m', op).0, a) {
      if !Writes(m, op, a) {
        WritesOnlyTheRecord(m, op, a);
        SameRecord(m, m', op, a);
        WritesOnlyTheRecord(m', op, a);
      }
    }
  }

  lemma SameRecord(m: Mem, m': Mem, op: Op, a: int)
    requires InLength(m', op) == InLength(m, op)
    ensures Writes(m, op, a) <==> Writes(m', op, a)
  {
  }

  /** A byte outside both records may be written before or after the transform. */
  lemma FarWriteCommutes(m: Mem, op: Op, at: int, v: byte)
    requires !Reads(m, op, at) && !Writes(m, op, at)
    ensures Transform(m[at := v], op).1 == Transform(m, op).1
    ensures SameMemory(Transform(m[at := v], op).0, Transform(m, op).0[at := v])
  {
    var m' := m[at := v];
    DependsOnlyOnInput(m, m', op);
    forall a ensures Peek(Transform(m', op).0, a) == Peek(Transform(m, op).0[at := v], a) {
      SameRecord(m, m', op, a);
      if !Writes(m, op, a) {
        WritesOnlyTheRecord(m, op, a);
        WritesOnlyTheRecord(m', op, a);
      }
    }
  }
}
