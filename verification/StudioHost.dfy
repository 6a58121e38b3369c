/** The BLE host app: its bounded incremental decoder and its one-request-per-response sequencing
    (ble-studio-host/src/main.c:72-227). */
module StudioHost {
  import opened Common
  import opened Framing
  import opened RpcClient

  const FRAME_BUF_SIZE := 256

  /** How bt_gatt_subscribe ends; anything but a failure lets the app send. */
  datatype SubscribeResult = Subscribed | AlreadySubscribed | SubscribeFailed

  datatype Event = Subscribe(result: SubscribeResult) | Indication(data: Option<seq<byte>>)

  /** The part of a frame that fits frame_buf. */
  function Cut(payload: seq<byte>): seq<byte> {
    payload[..Min(FRAME_BUF_SIZE, |payload|)]
  }

  function CutAll(frames: seq<seq<byte>>): (cut: seq<seq<byte>>)
    ensures |cut| == |frames| && forall i :: 0 <= i < |frames| ==> cut[i] == Cut(frames[i])
  {
    seq(|frames|, i requires 0 <= i < |frames| => Cut(frames[i]))
  }

  /** The write the app issues for a request: its length passes through a uint16_t. */
  function Written(request: seq<byte>): seq<byte> {
    request[..|request| % 65536]
  }

  function WrittenAll(requests: seq<seq<byte>>): (w: seq<seq<byte>>)
    ensures |w| == |requests| && forall i :: 0 <= i < |requests| ==> w[i] == Written(requests[i])
  {
    seq(|requests|, i requires 0 <= i < |requests| => Written(requests[i]))
  }

  /** `dec` is the unbounded decoder run alongside; `handled` lists the frames passed to
      handle_frame and `issued` the writes passed to bt_gatt_write. */
  datatype Host = Host(dec: Dec, handled: seq<seq<byte>>, sent: nat, issued: seq<seq<byte>>)

  function SendNext(h: Host, requests: seq<seq<byte>>): Host {
    if h.sent >= |requests| then h
    else h.(sent := h.sent + 1, issued := h.issued + [Written(requests[h.sent])])
  }

  function Receive(h: Host, b: byte, requests: seq<seq<byte>>): Host {
    var (dec, frames) := Feed(h.dec, b);
    if frames == [] then h.(dec := dec)
    else SendNext(h.(dec := dec, handled := h.handled + [Cut(frames[0])]), requests)
  }

  function ReceiveAll(h: Host, data: seq<byte>, requests: seq<seq<byte>>): Host {
    if data == [] then h
    else Receive(ReceiveAll(h, data[..|data| - 1], requests), data[|data| - 1], requests)
  }

  function Step(h: Host, e: Event, requests: seq<seq<byte>>): Host {
    match e
    case Subscribe(result) => if result.SubscribeFailed? then h else SendNext(h, requests)
    case Indication(data) => if data.None? then h else ReceiveAll(h, data.value, requests)
  }

  class StudioHostApp {
    const requests: seq<seq<byte>>
    const frameBuf: array<byte>
    var frameLen: nat
    var inFrame: bool
    var escaped: bool
    var requestsSent: nat
    var responsesReceived: nat
    ghost var dec: Dec
    ghost var handled: seq<seq<byte>>
    ghost var issued: seq<seq<byte>>

    /** frame_len never exceeds the buffer; the buffer holds the first bytes of what the unbounded
        decoder would hold. */
    ghost predicate Valid()
      reads this, frameBuf
    {
      && frameBuf.Length == FRAME_BUF_SIZE && frameLen <= FRAME_BUF_SIZE
      && inFrame == dec.Inside?
      && (inFrame ==> escaped == dec.escaped && frameBuf[..frameLen] == Cut(dec.payload))
      && responsesReceived == |handled|
    }

    ghost function View(): Host
      reads this
    {
      Host(dec, handled, requestsSent, issued)
    }

    constructor (requests: seq<seq<byte>>)
      ensures Valid() && this.requests == requests && View() == Host(Hunting, [], 0, [])
    {
      this.requests := requests;
      frameBuf := new byte[FRAME_BUF_SIZE];
      frameLen, inFrame, escaped, requestsSent, responsesReceived := 0, false, false, 0, 0;
      dec, handled, issued := Hunting, [], [];
    }

    method SendNextRequest()
      requires Valid()
      modifies `requestsSent, `issued
      ensures Valid() && View() == SendNext(old(View()), requests)
    {
      if requestsSent >= |requests| {
        return;
      }
      var data := requests[requestsSent];
      requestsSent := requestsSent + 1;
      issued := issued + [data[..|data| % 65536]];
    }

    method HandleFrame(frame: seq<byte>)
      requires Valid()
      modifies `requestsSent, `responsesReceived, `issued, `handled
      ensures Valid() && View() == SendNext(old(View()).(handled := old(handled) + [frame]), requests)
    {
      responsesReceived := responsesReceived + 1;
      handled := handled + [frame];
      if requestsSent < |requests| {
        SendNextRequest();
      }
    }

    method FrameRxByte(b: byte)
      requires Valid()
      modifies this, frameBuf
      ensures Valid() && View() == Receive(old(View()), b, requests)
    {
      ghost var before := dec;
      dec := Feed(dec, b).0;
      if !inFrame {
        if b == SOF {
          inFrame := true;
          escaped := false;
          frameLen := 0;
        }
        return;
      }
      if escaped {
        escaped := false;
      } else if b == ESC {
        escaped := true;
        return;
      } else if b == EOF {
        inFrame := false;
        HandleFrame(frameBuf[..frameLen]);
        return;
      } else if b == SOF {
        frameLen := 0;
        escaped := false;
        return;
      }
      if frameLen < FRAME_BUF_SIZE {
        frameBuf[frameLen] := b;
        frameLen := frameLen + 1;
        assert frameBuf[..frameLen] == Cut(before.payload) + [b];
      }
    }

    method IndicateFunc(data: Option<seq<byte>>)
      requires Valid()
      modifies this, frameBuf
      ensures Valid() && View() == Step(old(View()), Indication(data), requests)
    {
      if data == None {
        return;
      }
      for i := 0 to |data.value|
        invariant Valid() && View() == ReceiveAll(old(View()), data.value[..i], requests)
      {
        assert data.value[..i + 1][..i] == data.value[..i];
        FrameRxByte(data.value[i]);
      }
      assert data.value[..|data.value|] == data.value;
    }

    /** The last branch of discover_func. */
    method OnCccDiscovered(result: SubscribeResult)
      requires Valid()
      modifies `requestsSent, `issued
      ensures Valid() && View() == Step(old(View()), Subscribe(result), requests)
    {
      if !result.SubscribeFailed? {
        SendNextRequest();
      }
    }
  }

  // ------------------------------------------------------------- whole runs

  const START := Host(Hunting, [], 0, [])

  function Run(es: seq<Event>, requests: seq<seq<byte>>): Host {
    if es == [] then START else Step(Run(es[..|es| - 1], requests), es[|es| - 1], requests)
  }

  /** Everything the peer indicated, however it was split. */
  function Received(es: seq<Event>): seq<byte> {
    if es == [] then []
    else
      var e := es[|es| - 1];
      Received(es[..|es| - 1]) + (if e.Indication? && e.data.Some? then e.data.value else [])
  }

  function Subscriptions(es: seq<Event>): nat {
    if es == [] then 0
    else
      var e := es[|es| - 1];
      Subscriptions(es[..|es| - 1]) + (if e.Subscribe? && !e.result.SubscribeFailed? then 1 else 0)
  }

  /** The app's state after `subs` subscriptions and the stream `input`. */
  ghost predicate HostAt(h: Host, subs: nat, input: seq<byte>, requests: seq<seq<byte>>) {
    && (h.dec, h.handled) == (Decode(Hunting, input).0, CutAll(Decode(Hunting, input).1))
    && h.sent == Min(|requests|, subs + |h.handled|)
    && h.issued == WrittenAll(requests[..h.sent])
  }

  lemma SendNextKeeps(h: Host, requests: seq<seq<byte>>, n: nat)
    requires h.sent == Min(|requests|, n) && h.issued == WrittenAll(requests[..h.sent])
    ensures var t := SendNext(h, requests);
            t.sent == Min(|requests|, n + 1) && t.issued == WrittenAll(requests[..t.sent])
  {
  }

  lemma ReceiveKeeps(h: Host, subs: nat, input: seq<byte>, b: byte, requests: seq<seq<byte>>)
    requires HostAt(h, subs, input, requests)
    ensures HostAt(Receive(h, b, requests), subs, input + [b], requests)
  {
    var frames, more := Decode(Hunting, input).1, Feed(h.dec, b).1;
    DecodeAppend(Hunting, input, [b]);
    DecodeOne(h.dec, b);
    if more == [] {
      assert frames + [] == frames;
    } else {
      assert more == [more[0]];
      CutAllAppend(frames, more);
      assert CutAll(more) == [Cut(more[0])];
      SendNextKeeps(h, requests, subs + |h.handled|);
    }
  }

  lemma CutAllAppend(a: seq<seq<byte>>, b: seq<seq<byte>>)
    ensures CutAll(a + b) == CutAll(a) + CutAll(b)
  {
  }

  lemma {:induction false} ReceiveAllKeeps(
    h: Host, subs: nat, input: seq<byte>, data: seq<byte>, requests: seq<seq<byte>>)
    requires HostAt(h, subs, input, requests)
    ensures HostAt(ReceiveAll(h, data, requests), subs, input + data, requests)
  {
    if data == [] {
      assert input + data == input;
    } else {
      var front, b := data[..|data| - 1], data[|data| - 1];
      ReceiveAllKeeps(h, subs, input, front, requests);
      ReceiveKeeps(ReceiveAll(h, front, requests), subs, input + front, b, requests);
      assert input + front + [b] == input + data;
    }
  }

  /** For every sequence of subscriptions and indications the app has handled exactly the frames of
      the bytes it received, each cut to 256 bytes, and has issued exactly the first
      min(COUNT, subscriptions + frames) requests, in order. */
  lemma {:induction false} HostFollowsTheStream(es: seq<Event>, requests: seq<seq<byte>>)
    ensures HostAt(Run(es, requests), Subscriptions(es), Received(es), requests)
  {
    if es != [] {
      var front, e := es[..|es| - 1], es[|es| - 1];
      var h := Run(front, requests);
      HostFollowsTheStream(front, requests);
      match e
      case Subscribe(result) =>
        SendNextKeeps(h, requests, Subscriptions(front) + |h.handled|);
        assert Received(front) + [] == Received(front);
      case Indication(data) =>
        if data.Some? {
          ReceiveAllKeeps(h, Subscriptions(front), Received(front), data.value, requests);
        } else {
          assert Received(front) + [] == Received(front);
        }
    }
  }

  /** The C decoder refines the Python one: on the same bytes, however split into indications, it
      handles the frames read_frame returns, each cut to its first 256 bytes. */
  lemma CDecoderRefinesPython(es: seq<Event>, requests: seq<seq<byte>>)
    ensures Run(es, requests).handled == CutAll(ReadAll(Received(es)))
  {
    HostFollowsTheStream(es, requests);
    ReadAllIsDecode(Received(es));
  }

  /** Frame by frame: one of at most 256 bytes is handled as read_frame returns it, a longer one as its
      first 256 bytes. */
  lemma HandledFrames(es: seq<Event>, requests: seq<seq<byte>>, i: nat)
    requires i < |ReadAll(Received(es))|
    ensures var frames, handled := ReadAll(Received(es)), Run(es, requests).handled;
            && |handled| == |frames|
            && (|frames[i]| <= 256 ==> handled[i] == frames[i])
            && (|frames[i]| > 256 ==> |handled[i]| == 256 && handled[i] <= frames[i])
  {
    CDecoderRefinesPython(es, requests);
  }

  /** Every write carries a prefix of its request, of the length modulo 65536: the whole request exactly
      when its length fits sixteen bits. */
  lemma WholeRequestWritten(request: seq<byte>)
    ensures Written(request) <= request && |Written(request)| == |request| % 65536
    ensures Written(request) == request <==> |request| < 65536
  {
    if |request| >= 65536 {
      assert |Written(request)| < 65536;
    }
  }

  /** The bounded decoder resynchronises too, up to its cut. */
  lemma HostResynchronises(p: seq<byte>, k: nat, q: seq<byte>, requests: seq<seq<byte>>)
    requires k <= |Frame(p)| && !CutsAfterEscape(p, k)
    ensures Run([Indication(Some(Frame(p)[..k])), Indication(Some(Frame(q)))], requests).handled ==
            CutAll((if k == |Frame(p)| then [p] else []) + [q])
  {
    var es := [Indication(Some(Frame(p)[..k])), Indication(Some(Frame(q)))];
    HostFollowsTheStream(es, requests);
    assert es[..1] == [es[0]] && es[..1][..0] == [];
    assert Received(es[..1]) == Frame(p)[..k] by {
      assert Received(es[..1][..0]) == [];
    }
    assert Received(es) == Frame(p)[..k] + Frame(q);
    EscapeCutPoints(p, k);
    Resynchronisation(p, k, q);
    if k == |Frame(p)| {
      DecodeFrame(Hunting, p);
      assert Frame(p)[..k] == Frame(p);
    }
  }
}
