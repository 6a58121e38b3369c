/** RpcSocket.read_frame over its receive buffer (scripts/lib/renode/rpc_client.py:68-110), without
    deadlines: a call ends with a frame, or with None when no more input comes. */
module RpcClient {
  import opened Common
  import opened Framing

  /** What one read_frame call makes of the input: the frame, and the input it leaves. */
  function ReadOne(d: Dec, input: seq<byte>): (Option<seq<byte>>, seq<byte>)
    decreases |input|
  {
    if input == [] then (None, [])
    else
      var (after, frames) := Feed(d, input[0]);
      if frames != [] then (Some(frames[0]), input[1..]) else ReadOne(after, input[1..])
  }

  /** What calling read_frame until it returns None collects. */
  function ReadAll(input: seq<byte>): (frames: seq<seq<byte>>)
    decreases |input|
  {
    var (frame, rest) := ReadOne(Hunting, input);
    if frame.None? || |rest| >= |input| then [] else [frame.value] + ReadAll(rest)
  }

  class RpcSocket {
    /** Received and not yet consumed. */
    var rx: seq<byte>
    /** The chunks the socket is still going to deliver; an empty one reads as a closed socket. */
    var net: seq<seq<byte>>

    ghost function Input(): seq<byte>
      reads this
    {
      rx + Concat(net)
    }

    constructor (net: seq<seq<byte>>)
      ensures Input() == Concat(net)
    {
      rx, this.net := [], net;
    }

    method NextByte() returns (b: Option<byte>)
      modifies this
      ensures b.Some? ==> old(Input()) == [b.value] + Input()
      ensures b.None? ==> old(Input()) == Input()
      ensures |net| < old(|net|) || (|net| == old(|net|) && |rx| < old(|rx|))
              || (b.None? && old(rx) == [] && old(net) == [])
    {
      while rx == []
        invariant Input() == old(Input())
        invariant (net == old(net) && rx == old(rx)) || |net| < old(|net|)
        decreases |net|
      {
        if net == [] {
          return None;
        }
        var chunk := net[0];
        net := net[1..];
        if chunk == [] {
          return None;
        }
        rx := rx + chunk;
      }
      b := Some(rx[0]);
      rx := rx[1..];
    }

    method ReadFrame() returns (frame: Option<seq<byte>>)
      modifies this
      ensures (frame, Input()) == ReadOne(Hunting, old(Input()))
    {
      var inFrame, escaped := false, false;
      var payload: seq<byte> := [];
      while rx != [] || net != []
        invariant ReadOne(if inFrame then Inside(payload, escaped) else Hunting, Input()) ==
                  ReadOne(Hunting, old(Input()))
        invariant !inFrame ==> !escaped
        decreases |net|, |rx|
      {
        var next := NextByte();
        if next == None {
          continue;
        }
        var b := next.value;
        if !inFrame {
          if b == SOF {
            inFrame := true;
            payload := [];
          }
          continue;
        }
        if escaped {
          payload := payload + [b];
          escaped := false;
        } else if b == ESC {
          escaped := true;
        } else if b == EOF {
          return Some(payload);
        } else if b == SOF {
          payload := [];
        } else {
          payload := payload + [b];
        }
      }
      frame := None;
    }
  }

  /** The stream up to `rest` holds the frame and no other. */
  predicate FirstFrame(d: Dec, input: seq<byte>, frame: Option<seq<byte>>, rest: seq<byte>) {
    && |rest| <= |input| && rest == input[|input| - |rest|..]
    && (frame.Some? ==> |rest| < |input| && Decode(d, input[..|input| - |rest|]) == (Hunting, [frame.value]))
    && (frame.None? ==> rest == [] && Decode(d, input).1 == [])
  }

  /** One call consumes the stream up to and including the frame it returns, and nothing more. */
  lemma {:induction false} ReadOneDecodes(d: Dec, input: seq<byte>)
    ensures FirstFrame(d, input, ReadOne(d, input).0, ReadOne(d, input).1)
    decreases |input|
  {
    if input != [] {
      var (after, frames) := Feed(d, input[0]);
      if frames != [] {
        DecodeOne(d, input[0]);
        assert input[..1] == [input[0]];
      } else {
        ReadOneDecodes(after, input[1..]);
        FirstFrameLater(d, input, ReadOne(d, input).0, ReadOne(d, input).1);
      }
    }
  }

  lemma FirstFrameLater(d: Dec, input: seq<byte>, frame: Option<seq<byte>>, rest: seq<byte>)
    requires input != [] && Feed(d, input[0]).1 == [] && FirstFrame(Feed(d, input[0]).0, input[1..], frame, rest)
    ensures FirstFrame(d, input, frame, rest)
  {
    var n := |input| - 1 - |rest|;
    TakeCons(input, n);
    if frame.Some? {
      DecodeSilent(d, input[0], input[1..][..n]);
    } else {
      DecodeSilent(d, input[0], input[1..]);
      assert input == [input[0]] + input[1..];
    }
  }

  lemma TakeCons(s: seq<byte>, n: nat)
    requires n < |s|
    ensures s[..n + 1] == [s[0]] + s[1..][..n] && s[1..][n..] == s[n + 1..]
  {
  }

  /** Calling read_frame until the input is used up collects exactly the frames of the stream, so
      the buffer kept between calls neither loses nor repeats a byte. */
  lemma {:induction false} ReadAllIsDecode(input: seq<byte>)
    ensures ReadAll(input) == Decode(Hunting, input).1
    decreases |input|
  {
    ReadOneDecodes(Hunting, input);
    var (frame, rest) := ReadOne(Hunting, input);
    if frame.Some? {
      var used := input[..|input| - |rest|];
      assert input == used + rest;
      DecodeAppend(Hunting, used, rest);
      ReadAllIsDecode(rest);
    }
  }

  /** Framed payloads, with SOF-free bytes around them, are read back one per call. */
  lemma ClientReadsThePayloads(noise: seq<seq<byte>>, payloads: seq<seq<byte>>, after: seq<byte>)
    requires |noise| == |payloads| && SOF !in after && forall i :: 0 <= i < |noise| ==> SOF !in noise[i]
    ensures ReadAll(Stream(noise, payloads) + after) == payloads
  {
    ReadAllIsDecode(Stream(noise, payloads) + after);
    StreamRoundTrip(noise, payloads, after);
  }
}
