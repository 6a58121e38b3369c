/** Studio RPC framing: the encoder and the unbounded decoder of scripts/lib/renode/rpc_client.py. */
module Framing {
  import opened Common

  const SOF: byte := 0xAB
  const ESC: byte := 0xAC
  const EOF: byte := 0xAD

  predicate Special(b: byte) { b == SOF || b == ESC || b == EOF }

  function Escape(b: byte): seq<byte> {
    if Special(b) then [ESC, b] else [b]
  }

  function Body(payload: seq<byte>): seq<byte> {
    if payload == [] then [] else Body(payload[..|payload| - 1]) + Escape(payload[|payload| - 1])
  }

  function Frame(payload: seq<byte>): seq<byte> {
    [SOF] + (Body(payload) + [EOF])
  }

  method EncodeFrame(payload: seq<byte>) returns (out: seq<byte>)
    ensures out == Frame(payload)
  {
    out := [SOF];
    for i := 0 to |payload|
      invariant out == [SOF] + Body(payload[..i])
    {
      assert payload[..i + 1][..i] == payload[..i];
      if Special(payload[i]) {
        out := out + [ESC];
      }
      out := out + [payload[i]];
    }
    assert payload[..|payload|] == payload;
    out := out + [EOF];
    assert out == [SOF] + (Body(payload) + [EOF]);
  }

  /** The frame on the wire: 0xAB, the bytes of the payload one after the other, each 0xAB, 0xAC or
      0xAD with 0xAC in front, and 0xAD. */
  lemma FrameOnTheWire(payload: seq<byte>, more: seq<byte>, b: byte)
    ensures Frame(payload) == [0xAB] + Body(payload) + [0xAD]
    ensures Body([]) == [] && Body(payload + more) == Body(payload) + Body(more)
    ensures Body([b]) == if 0xAB <= b <= 0xAD then [0xAC, b] else [b]
  {
    Assoc([SOF], Body(payload), [EOF]);
    BodyAppend(payload, more);
    assert [b][..0] == [] && [] + Escape(b) == Escape(b);
  }

  lemma {:induction false} BodyAppend(a: seq<byte>, b: seq<byte>)
    ensures Body(a + b) == Body(a) + Body(b)
  {
    if b == [] {
      assert a + b == a;
    } else {
      assert (a + b)[..|a + b| - 1] == a + b[..|b| - 1];
      BodyAppend(a, b[..|b| - 1]);
    }
  }

  // ------------------------------------------------------------- the decoder, byte by byte

  /** Outside a frame, or inside one with the payload so far and a pending escape. */
  datatype Dec = Hunting | Inside(payload: seq<byte>, escaped: bool)

  /** One byte: the next state, and the frame it completes, if any. */
  function Feed(d: Dec, b: byte): (Dec, seq<seq<byte>>) {
    match d
    case Hunting => (if b == SOF then Inside([], false) else Hunting, [])
    case Inside(payload, escaped) =>
      if escaped then (Inside(payload + [b], false), [])
      else if b == ESC then (Inside(payload, true), [])
      else if b == EOF then (Hunting, [payload])
      else if b == SOF then (Inside([], false), [])
      else (Inside(payload + [b], false), [])
  }

  /** The state after a stream and the frames completed in it. */
  function Decode(d: Dec, stream: seq<byte>): (Dec, seq<seq<byte>>) {
    if stream == [] then (d, [])
    else
      var (before, frames) := Decode(d, stream[..|stream| - 1]);
      var (after, more) := Feed(before, stream[|stream| - 1]);
      (after, frames + more)
  }

  lemma {:induction false} DecodeAppend(d: Dec, a: seq<byte>, b: seq<byte>)
    ensures var (mid, first) := Decode(d, a);
            var (end, second) := Decode(mid, b);
            Decode(d, a + b) == (end, first + second)
  {
    var (mid, first) := Decode(d, a);
    if b == [] {
      assert a + b == a;
      assert first + [] == first;
    } else {
      assert (a + b)[..|a + b| - 1] == a + b[..|b| - 1];
      DecodeAppend(d, a, b[..|b| - 1]);
      var (before, frames) := Decode(mid, b[..|b| - 1]);
      var (after, more) := Feed(before, b[|b| - 1]);
      assert (first + frames) + more == first + (frames + more);
    }
  }

  lemma DecodeOne(d: Dec, b: byte)
    ensures Decode(d, [b]) == Feed(d, b)
  {
    assert [b][..0] == [];
    assert [] + Feed(d, b).1 == Feed(d, b).1;
  }

  /** Bytes that complete no frame only move the state. */
  lemma DecodeQuietly(d: Dec, a: seq<byte>, b: seq<byte>)
    requires Decode(d, a).1 == []
    ensures Decode(d, a + b) == Decode(Decode(d, a).0, b)
  {
    DecodeAppend(d, a, b);
    assert [] + Decode(Decode(d, a).0, b).1 == Decode(Decode(d, a).0, b).1;
  }

  lemma DecodeSilent(d: Dec, b: byte, rest: seq<byte>)
    requires Feed(d, b).1 == []
    ensures Decode(d, [b] + rest) == Decode(Feed(d, b).0, rest)
  {
    DecodeOne(d, b);
    DecodeQuietly(d, [b], rest);
  }

  // ------------------------------------------------------------- round trip

  lemma DecodeEscaped(payload: seq<byte>, b: byte)
    ensures Decode(Inside(payload, false), Escape(b)) == (Inside(payload + [b], false), [])
  {
    if Special(b) {
      DecodeOne(Inside(payload, false), ESC);
      DecodeQuietly(Inside(payload, false), [ESC], [b]);
      DecodeOne(Inside(payload, true), b);
      assert [ESC, b] == [ESC] + [b];
    } else {
      DecodeOne(Inside(payload, false), b);
    }
  }

  lemma DecodeOneMore(d: Dec, body: seq<byte>, soFar: seq<byte>, b: byte)
    requires Decode(d, body) == (Inside(soFar, false), [])
    ensures Decode(d, body + Escape(b)) == (Inside(soFar + [b], false), [])
  {
    DecodeQuietly(d, body, Escape(b));
    DecodeEscaped(soFar, b);
  }

  lemma {:induction false} DecodeBody(prefix: seq<byte>, payload: seq<byte>)
    ensures Decode(Inside(prefix, false), Body(payload)) == (Inside(prefix + payload, false), [])
  {
    if payload == [] {
      assert prefix + payload == prefix;
    } else {
      var front, b := payload[..|payload| - 1], payload[|payload| - 1];
      DecodeBody(prefix, front);
      DecodeOneMore(Inside(prefix, false), Body(front), prefix + front, b);
      Assoc(prefix, front, [b]);
      assert front + [b] == payload;
    }
  }

  lemma DecodeRest(prefix: seq<byte>, payload: seq<byte>)
    ensures Decode(Inside(prefix, false), Body(payload) + [EOF]) == (Hunting, [prefix + payload])
  {
    DecodeBody(prefix, payload);
    DecodeQuietly(Inside(prefix, false), Body(payload), [EOF]);
    DecodeOne(Inside(prefix + payload, false), EOF);
  }

  /** Whatever state the decoder is in, unless it holds an escape, a complete frame comes out as
      its payload; inside a frame the new SOF discards what was there. */
  lemma DecodeFrame(d: Dec, payload: seq<byte>)
    requires d.Inside? ==> !d.escaped
    ensures Decode(d, Frame(payload)) == (Hunting, [payload])
  {
    DecodeOne(d, SOF);
    DecodeQuietly(d, [SOF], Body(payload) + [EOF]);
    DecodeRest([], payload);
    assert [] + payload == payload;
  }

  lemma {:induction false} DecodeNoise(noise: seq<byte>)
    requires SOF !in noise
    ensures Decode(Hunting, noise) == (Hunting, [])
  {
    if noise != [] {
      DecodeNoise(noise[..|noise| - 1]);
      assert noise[|noise| - 1] in noise;
      assert Decode(Hunting, noise).1 == [] + [];
    }
  }

  /** Noise before each frame. */
  function Stream(noise: seq<seq<byte>>, payloads: seq<seq<byte>>): seq<byte>
    requires |noise| == |payloads|
  {
    if payloads == [] then []
    else
      var n := |payloads| - 1;
      Stream(noise[..n], payloads[..n]) + noise[n] + Frame(payloads[n])
  }

  /** Any payloads, framed and sent with any SOF-free bytes before, between and after the frames,
      are decoded to exactly those payloads, in order. */
  lemma StreamRoundTrip(noise: seq<seq<byte>>, payloads: seq<seq<byte>>, after: seq<byte>)
    requires |noise| == |payloads| && SOF !in after && forall i :: 0 <= i < |noise| ==> SOF !in noise[i]
    ensures Decode(Hunting, Stream(noise, payloads) + after) == (Hunting, payloads)
  {
    StreamDecodes(noise, payloads);
    DecodeNoise(after);
    DecodeAppend(Hunting, Stream(noise, payloads), after);
    assert payloads + [] == payloads;
  }

  lemma DecodeSegment(stream: seq<byte>, payloads: seq<seq<byte>>, noise: seq<byte>, payload: seq<byte>)
    requires Decode(Hunting, stream) == (Hunting, payloads) && SOF !in noise
    ensures Decode(Hunting, stream + noise + Frame(payload)) == (Hunting, payloads + [payload])
  {
    DecodeNoise(noise);
    DecodeAppend(Hunting, stream, noise);
    assert payloads + [] == payloads;
    DecodeAppend(Hunting, stream + noise, Frame(payload));
    DecodeFrame(Hunting, payload);
  }

  lemma {:induction false} StreamDecodes(noise: seq<seq<byte>>, payloads: seq<seq<byte>>)
    requires |noise| == |payloads| && forall i :: 0 <= i < |noise| ==> SOF !in noise[i]
    ensures Decode(Hunting, Stream(noise, payloads)) == (Hunting, payloads)
  {
    if payloads != [] {
      var n := |payloads| - 1;
      StreamDecodes(noise[..n], payloads[..n]);
      DecodeSegment(Stream(noise[..n], payloads[..n]), payloads[..n], noise[n], payloads[n]);
      assert payloads[..n] + [payloads[n]] == payloads;
    }
  }

  // ------------------------------------------------------------- resynchronisation

  predicate HoldsEscape(d: Dec) { d.Inside? && d.escaped }

  /** A frame cut after `k` bytes and then a complete one: the complete frame comes out intact
      exactly when the cut does not leave the decoder holding an escape; if it does, the next SOF is
      taken as data and both frames run together. */
  lemma Resynchronisation(p: seq<byte>, k: nat, q: seq<byte>)
    requires k <= |Frame(p)|
    ensures var (d, done) := Decode(Hunting, Frame(p)[..k]);
            var frames := Decode(Hunting, Frame(p)[..k] + Frame(q)).1;
            && frames == done + [if HoldsEscape(d) then d.payload + [SOF] + q else q]
            && (frames == done + [q] <==> !HoldsEscape(d))
  {
    var (d, done) := Decode(Hunting, Frame(p)[..k]);
    DecodeAppend(Hunting, Frame(p)[..k], Frame(q));
    if HoldsEscape(d) {
      DecodeGlued(d.payload, q);
      var glued := d.payload + [SOF] + q;
      assert |glued| > |q|;
      assert (done + [glued])[|done|] == glued;
    } else {
      DecodeFrame(d, q);
    }
  }

  lemma DecodeGlued(held: seq<byte>, q: seq<byte>)
    ensures Decode(Inside(held, true), Frame(q)) == (Hunting, [held + [SOF] + q])
  {
    DecodeOne(Inside(held, true), SOF);
    DecodeQuietly(Inside(held, true), [SOF], Body(q) + [EOF]);
    DecodeRest(held + [SOF], q);
  }

  /** Where such a cut falls: right after the ESC of some escaped payload byte. */
  predicate CutsAfterEscape(p: seq<byte>, k: nat) {
    exists i :: 0 <= i < |p| && Special(p[i]) && k == 2 + |Body(p[..i])|
  }

  lemma EscapeCutPoints(p: seq<byte>, k: nat)
    requires k <= |Frame(p)|
    ensures HoldsEscape(Decode(Hunting, Frame(p)[..k]).0) <==> CutsAfterEscape(p, k)
    ensures k < |Frame(p)| ==> Decode(Hunting, Frame(p)[..k]).1 == []
  {
    CutPoints(p, k);
    if k == 0 {
      assert Frame(p)[..k] == [];
    } else if k == |Frame(p)| {
      DecodeFrame(Hunting, p);
      assert Frame(p)[..k] == Frame(p);
      BodyTooShort(p, k - 1);
    } else {
      assert Frame(p)[..k] == [SOF] + Body(p)[..k - 1];
      DecodeOne(Hunting, SOF);
      DecodeQuietly(Hunting, [SOF], Body(p)[..k - 1]);
      BodyCut(p, k - 1);
    }
  }

  lemma CutPoints(p: seq<byte>, k: nat)
    ensures CutsAfterEscape(p, k) <==> k > 0 && BodyEndsInEscape(p, k - 1)
  {
    if CutsAfterEscape(p, k) {
      var i :| 0 <= i < |p| && Special(p[i]) && k == 2 + |Body(p[..i])|;
      assert EscapedAt(p, k - 1, i);
    }
    if k > 0 && BodyEndsInEscape(p, k - 1) {
      var i :| EscapedAt(p, k - 1, i);
      assert 0 <= i < |p| && Special(p[i]) && k == 2 + |Body(p[..i])|;
    }
  }

  lemma BodyTooShort(p: seq<byte>, k: nat)
    requires k > |Body(p)|
    ensures !BodyEndsInEscape(p, k)
  {
    if i :| EscapedAt(p, k, i) {
      EscapeFits(p, i);
    }
  }

  lemma {:induction false} EscapeFits(p: seq<byte>, i: nat)
    requires i < |p|
    ensures |Body(p[..i])| + |Escape(p[i])| <= |Body(p)|
  {
    if i < |p| - 1 {
      assert p[..|p| - 1][..i] == p[..i];
      EscapeFits(p[..|p| - 1], i);
    }
  }

  /** `k` bytes of the body end in the ESC of an escaped payload byte. */
  ghost predicate BodyEndsInEscape(p: seq<byte>, k: nat) {
    exists i :: EscapedAt(p, k, i)
  }

  predicate EscapedAt(p: seq<byte>, k: nat, i: int) {
    0 <= i < |p| && Special(p[i]) && k == 1 + |Body(p[..i])|
  }

  lemma EscapedAtFront(p: seq<byte>, k: nat, i: int)
    requires p != [] && i < |p| - 1
    ensures EscapedAt(p, k, i) <==> EscapedAt(p[..|p| - 1], k, i)
    ensures EscapedAt(p, k, i) ==> k <= |Body(p[..|p| - 1])|
  {
    var front := p[..|p| - 1];
    if 0 <= i {
      assert front[..i] == p[..i];
      EscapeFits(front, i);
    }
  }

  /** Only the last payload byte can put such an end beyond the body of the others. */
  lemma EscapeEnds(p: seq<byte>, k: nat)
    requires p != []
    ensures var n := |p| - 1;
            BodyEndsInEscape(p, k) <==>
            if k <= |Body(p[..n])| then BodyEndsInEscape(p[..n], k) else Special(p[n]) && k == 1 + |Body(p[..n])|
  {
    var n := |p| - 1;
    forall i | i < n
      ensures EscapedAt(p, k, i) <==> EscapedAt(p[..n], k, i)
      ensures EscapedAt(p, k, i) ==> k <= |Body(p[..n])|
    {
      EscapedAtFront(p, k, i);
    }
    assert EscapedAt(p, k, n) <==> Special(p[n]) && k == 1 + |Body(p[..n])|;
  }

  /** The state after `k` bytes of a body. */
  lemma {:induction false} BodyCut(p: seq<byte>, k: nat)
    requires k <= |Body(p)|
    ensures var (d, done) := Decode(Inside([], false), Body(p)[..k]);
            d.Inside? && done == [] && (d.escaped <==> BodyEndsInEscape(p, k))
  {
    if p == [] {
      assert Body(p)[..k] == [];
    } else {
      var n := |p| - 1;
      var front, b := p[..n], p[n];
      EscapeEnds(p, k);
      if k <= |Body(front)| {
        assert Body(p)[..k] == Body(front)[..k];
        BodyCut(front, k);
      } else if k == |Body(p)| {
        DecodeBody([], p);
        assert Body(p)[..k] == Body(p);
      } else {
        assert Body(p)[..k] == Body(front) + [ESC];
        DecodeBody([], front);
        DecodeQuietly(Inside([], false), Body(front), [ESC]);
        DecodeOne(Inside([] + front, false), ESC);
      }
    }
  }
}
