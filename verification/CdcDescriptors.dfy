/** Finding the CDC data endpoints in a USB configuration descriptor, as ParseCdcDataPairs of
    scripts/lib/renode/platforms/models/DualCdcAcmBridge.cs does, and what that finds in
    descriptors laid out as in sections 9.6.3, 9.6.5 and 9.6.6 of USB 2.0. */
module CdcDescriptors {
  import opened Common

  const INTERFACE_DESCRIPTOR: byte := 4
  const ENDPOINT_DESCRIPTOR: byte := 5
  const CDC_COMMUNICATIONS := 0x02
  const CDC_DATA := 0x0A

  /** One CDC function; the control interface is -1 when no communications interface precedes. */
  datatype CdcDataPair = CdcDataPair(controlInterface: int, inEndpoint: nat, outEndpoint: nat)

  /** The locals of the parsing loop. */
  datatype Walk = Walk(
    pairs: seq<CdcDataPair>, pendingControl: int, currentClass: int, inEndpoint: nat, outEndpoint: nat)

  const START := Walk([], -1, -1, 0, 0)

  function Flush(w: Walk): Walk {
    (if w.currentClass == CDC_DATA && w.inEndpoint != 0 && w.outEndpoint != 0 then
       w.(pairs := w.pairs + [CdcDataPair(w.pendingControl, w.inEndpoint, w.outEndpoint)], pendingControl := -1)
     else w).(inEndpoint := 0, outEndpoint := 0)
  }

  function OpenInterface(w: Walk, number: byte, classCode: byte): Walk {
    Flush(w).(currentClass := classCode,
              pendingControl := if classCode == CDC_COMMUNICATIONS then number else Flush(w).pendingControl)
  }

  predicate IsBulk(attributes: byte) { attributes % 4 == 2 }

  predicate IsIn(address: byte) { address / 128 == 1 }

  function SeeEndpoint(w: Walk, address: byte, attributes: byte): Walk {
    if w.currentClass != CDC_DATA || !IsBulk(attributes) then w
    else if IsIn(address) then w.(inEndpoint := address % 16)
    else w.(outEndpoint := address % 16)
  }

  /** One turn of the loop, standing at the first byte of `rest`. */
  function Visit(w: Walk, rest: seq<byte>): Walk
    requires |rest| >= 2
  {
    if rest[1] == INTERFACE_DESCRIPTOR && |rest| > 6 then OpenInterface(w, rest[2], rest[5])
    else if rest[1] == ENDPOINT_DESCRIPTOR && |rest| > 4 then SeeEndpoint(w, rest[2], rest[3])
    else w
  }

  function WalkFrom(w: Walk, rest: seq<byte>): Walk
    decreases |rest|
  {
    if |rest| < 2 || rest[0] == 0 then Flush(w)
    else WalkFrom(Visit(w, rest), if rest[0] <= |rest| then rest[rest[0]..] else [])
  }

  function Parse(descriptor: seq<byte>): seq<CdcDataPair> {
    WalkFrom(START, descriptor).pairs
  }

  /** The loop over byte offsets, with its captured locals. */
  method ParseCdcDataPairs(descriptor: seq<byte>) returns (pairs: seq<CdcDataPair>)
    ensures pairs == Parse(descriptor)
  {
    pairs := [];
    var pendingControlInterface: int, currentClass: int := -1, -1;
    var inEndpoint, outEndpoint: nat := 0, 0;
    var offset := 0;
    while offset + 1 < |descriptor| && descriptor[offset] > 0
      invariant offset >= 0
      invariant WalkFrom(START, descriptor) ==
                WalkFrom(Walk(pairs, pendingControlInterface, currentClass, inEndpoint, outEndpoint),
                         if offset <= |descriptor| then descriptor[offset..] else [])
      decreases |descriptor| - offset
    {
      var kind := descriptor[offset + 1];
      if kind == INTERFACE_DESCRIPTOR && offset + 6 < |descriptor| {
        if currentClass == CDC_DATA && inEndpoint != 0 && outEndpoint != 0 {
          pairs := pairs + [CdcDataPair(pendingControlInterface, inEndpoint, outEndpoint)];
          pendingControlInterface := -1;
        }
        inEndpoint, outEndpoint := 0, 0;
        currentClass := descriptor[offset + 5];
        if currentClass == CDC_COMMUNICATIONS {
          pendingControlInterface := descriptor[offset + 2];
        }
      } else if kind == ENDPOINT_DESCRIPTOR && offset + 4 < |descriptor| && currentClass == CDC_DATA {
        var address := descriptor[offset + 2];
        if descriptor[offset + 3] % 4 == 2 {
          if address / 128 != 0 {
            inEndpoint := address % 16;
          } else {
            outEndpoint := address % 16;
          }
        }
      }
      ghost var here := descriptor[offset..];
      assert here[0] <= |here| ==> here[here[0]..] == descriptor[offset + descriptor[offset]..];
      offset := offset + descriptor[offset];
    }
    if currentClass == CDC_DATA && inEndpoint != 0 && outEndpoint != 0 {
      pairs := pairs + [CdcDataPair(pendingControlInterface, inEndpoint, outEndpoint)];
    }
  }

  // ------------------------------------------------------------- descriptors as a device lays them out

  /** One descriptor: an interface (type 4) or an endpoint (type 5; sections 9.6.5 and 9.6.6 of
      USB 2.0), with the bytes a class adds at its end, or anything else (functional descriptors, interface
      associations, HID descriptors, the configuration header). */
  datatype Desc =
    | Interface(number: byte, alternate: byte, endpoints: byte, classCode: byte, subclass: byte, protocol: byte,
                nameIndex: byte, more: seq<byte>)
    | Endpoint(address: byte, attributes: byte, maxPacketLow: byte, maxPacketHigh: byte, interval: byte,
               more: seq<byte>)
    | Plain(kind: byte, body: seq<byte>)

  /** The length byte holds the length. */
  predicate WellFormed(d: Desc) {
    match d
    case Interface(_, _, _, _, _, _, _, more) => |more| <= 246
    case Endpoint(_, _, _, _, _, more) => |more| <= 248
    case Plain(kind, body) => kind != 4 && kind != 5 && |body| <= 253
  }

  function Bytes(d: Desc): (b: seq<byte>)
    requires WellFormed(d)
    ensures |b| >= 2 && b[0] == |b|
  {
    match d
    case Interface(number, alternate, endpoints, classCode, subclass, protocol, nameIndex, more) =>
      [9 + |more|, 4, number, alternate, endpoints, classCode, subclass, protocol, nameIndex] + more
    case Endpoint(address, attributes, low, high, interval, more) =>
      [7 + |more|, 5, address, attributes, low, high, interval] + more
    case Plain(kind, body) => [2 + |body|, kind] + body
  }

  predicate AllWellFormed(ds: seq<Desc>) {
    forall i :: 0 <= i < |ds| ==> WellFormed(ds[i])
  }

  function Serialize(ds: seq<Desc>): seq<byte>
    requires AllWellFormed(ds)
  {
    if ds == [] then [] else Bytes(ds[0]) + Serialize(ds[1..])
  }

  function See(w: Walk, d: Desc): Walk {
    match d
    case Interface(number, _, _, classCode, _, _, _, _) => OpenInterface(w, number, classCode)
    case Endpoint(address, attributes, _, _, _, _) => SeeEndpoint(w, address, attributes)
    case Plain(_, _) => w
  }

  function SeeAll(w: Walk, ds: seq<Desc>): Walk
    decreases |ds|
  {
    if ds == [] then w else SeeAll(See(w, ds[0]), ds[1..])
  }

  lemma {:induction false} SeeAppend(w: Walk, a: seq<Desc>, b: seq<Desc>)
    ensures SeeAll(w, a + b) == SeeAll(SeeAll(w, a), b)
    decreases |a|
  {
    if a == [] {
      assert a + b == b;
    } else {
      assert (a + b)[1..] == a[1..] + b;
      SeeAppend(See(w, a[0]), a[1..], b);
    }
  }

  lemma VisitSees(w: Walk, d: Desc, tail: seq<byte>)
    requires WellFormed(d)
    ensures Visit(w, Bytes(d) + tail) == See(w, d)
    ensures (Bytes(d) + tail)[|Bytes(d)|..] == tail
  {
  }

  lemma {:induction false} WalkOn(w: Walk, ds: seq<Desc>, tail: seq<byte>)
    requires AllWellFormed(ds)
    ensures WalkFrom(w, Serialize(ds) + tail) == WalkFrom(SeeAll(w, ds), tail)
    decreases |ds|
  {
    if ds == [] {
      assert Serialize(ds) + tail == tail;
    } else {
      var rest := Serialize(ds[1..]) + tail;
      VisitSees(w, ds[0], rest);
      WalkOn(See(w, ds[0]), ds[1..], tail);
      Assoc(Bytes(ds[0]), Serialize(ds[1..]), tail);
    }
  }

  /** Walking the bytes visits the descriptors one by one. */
  lemma WalkSerialized(w: Walk, ds: seq<Desc>)
    requires AllWellFormed(ds)
    ensures WalkFrom(w, Serialize(ds)) == Flush(SeeAll(w, ds))
  {
    WalkOn(w, ds, []);
    assert Serialize(ds) + [] == Serialize(ds);
  }

  /** A length byte of zero ends the walk, whatever follows. */
  lemma ZeroLengthEndsTheWalk(ds: seq<Desc>, tail: seq<byte>)
    requires AllWellFormed(ds)
    ensures Parse(Serialize(ds) + ([0] + tail)) == Parse(Serialize(ds))
  {
    WalkOn(START, ds, [0] + tail);
    WalkSerialized(START, ds);
  }

  /** A length byte of one is stepped over, unless the byte behind it reads as the type of an interface
      or an endpoint. */
  lemma LengthOneIsStepped(ds: seq<Desc>, tail: seq<byte>)
    requires AllWellFormed(ds) && tail != [] && tail[0] != 4 && tail[0] != 5
    ensures Parse(Serialize(ds) + ([1] + tail)) == Parse(Serialize(ds) + tail)
  {
    WalkOn(START, ds, [1] + tail);
    WalkOn(START, ds, tail);
    assert ([1] + tail)[1..] == tail && ([1] + tail)[1] == tail[0];
  }

  /** The bytes of a descriptor that the parser looks at. */
  function BytesNeeded(d: Desc): nat {
    match d
    case Interface(_, _, _, _, _, _, _, _) => 7
    case Endpoint(_, _, _, _, _, _) => 5
    case Plain(_, _) => 0
  }

  /** When the bytes end inside a descriptor it counts as if it were whole, if at least seven bytes of
      an interface or five of an endpoint are there, and as if it were missing otherwise. */
  lemma CutDescriptor(ds: seq<Desc>, d: Desc, k: nat)
    requires AllWellFormed(ds) && WellFormed(d) && k <= |Bytes(d)|
    ensures Parse(Serialize(ds) + Bytes(d)[..k]) == Parse(Serialize(if k >= BytesNeeded(d) then ds + [d] else ds))
  {
    var seen := if k >= BytesNeeded(d) then ds + [d] else ds;
    WalkOn(START, ds, Bytes(d)[..k]);
    WalkSerialized(START, seen);
    SeeAppend(START, ds, [d]);
    var w := SeeAll(START, ds);
    assert SeeAll(w, [d]) == See(w, d);
    WalkCut(w, d, k);
  }

  lemma WalkCut(w: Walk, d: Desc, k: nat)
    requires WellFormed(d) && k <= |Bytes(d)|
    ensures WalkFrom(w, Bytes(d)[..k]) == Flush(if k >= BytesNeeded(d) then See(w, d) else w)
  {
    var rest := Bytes(d)[..k];
    if k >= 2 {
      assert rest[0] == Bytes(d)[0] && rest[1] == Bytes(d)[1];
    }
  }

  // ------------------------------------------------------------- what the parser finds, by interface

  /** An interface with the descriptors up to the next one. */
  datatype Iface = Iface(head: Desc, body: seq<Desc>)

  predicate IfaceOk(i: Iface) {
    && i.head.Interface? && WellFormed(i.head) && AllWellFormed(i.body)
    && forall k :: 0 <= k < |i.body| ==> !i.body[k].Interface?
  }

  predicate IfacesOk(interfaces: seq<Iface>) {
    forall k :: 0 <= k < |interfaces| ==> IfaceOk(interfaces[k])
  }

  function Descs(interfaces: seq<Iface>): (ds: seq<Desc>)
    requires IfacesOk(interfaces)
    ensures AllWellFormed(ds)
  {
    if interfaces == [] then [] else [interfaces[0].head] + interfaces[0].body + Descs(interfaces[1..])
  }

  /** A bulk endpoint has transfer type 2 in the low two bits of its attributes, and an IN endpoint
      has the top bit of its address set (section 9.6.6 of USB 2.0). */
  predicate IsBulkEndpoint(d: Desc, wantIn: bool) {
    d.Endpoint? && d.attributes % 4 == 2 && (d.address >= 128 <==> wantIn)
  }

  /** The number of the last bulk endpoint of a body in one direction; 0 if there is none. */
  function LastBulk(body: seq<Desc>, wantIn: bool): nat {
    if body == [] then 0
    else
      var d := body[|body| - 1];
      if IsBulkEndpoint(d, wantIn) then d.address % 16
      else LastBulk(body[..|body| - 1], wantIn)
  }

  /** Each data interface (class 10) with both bulk endpoints is one function; its control interface
      is the last communications interface (class 2) since the previous function, or -1. */
  function FunctionsOf(interfaces: seq<Iface>, control: int): seq<CdcDataPair>
    requires IfacesOk(interfaces)
    decreases |interfaces|
  {
    if interfaces == [] then []
    else
      var h, body := interfaces[0].head, interfaces[0].body;
      if h.classCode == 2 then FunctionsOf(interfaces[1..], h.number)
      else if h.classCode == 10 && LastBulk(body, true) != 0 && LastBulk(body, false) != 0 then
        [CdcDataPair(control, LastBulk(body, true), LastBulk(body, false))] + FunctionsOf(interfaces[1..], -1)
      else FunctionsOf(interfaces[1..], control)
  }

  lemma {:induction false} SeeBody(w: Walk, body: seq<Desc>)
    requires w.inEndpoint == 0 && w.outEndpoint == 0
    requires forall k :: 0 <= k < |body| ==> !body[k].Interface?
    ensures SeeAll(w, body) == if w.currentClass != CDC_DATA then w
                               else w.(inEndpoint := LastBulk(body, true), outEndpoint := LastBulk(body, false))
  {
    if body != [] {
      var front, last := body[..|body| - 1], body[|body| - 1];
      SeeBody(w, front);
      assert body == front + [last];
      SeeAppend(w, front, [last]);
      assert SeeAll(SeeAll(w, front), [last]) == See(SeeAll(w, front), last);
    }
  }

  lemma {:induction false} SeeInterfaces(w: Walk, interfaces: seq<Iface>)
    requires IfacesOk(interfaces)
    ensures Flush(SeeAll(w, Descs(interfaces))).pairs ==
            Flush(w).pairs + FunctionsOf(interfaces, Flush(w).pendingControl)
    decreases |interfaces|
  {
    if interfaces != [] {
      var h, body := interfaces[0].head, interfaces[0].body;
      SeeAppend(w, [h], body + Descs(interfaces[1..]));
      assert [h] + (body + Descs(interfaces[1..])) == Descs(interfaces);
      assert SeeAll(w, [h]) == See(w, h);
      SeeAppend(See(w, h), body, Descs(interfaces[1..]));
      SeeBody(See(w, h), body);
      SeeInterfaces(SeeAll(See(w, h), body), interfaces[1..]);
    }
  }

  /** For any configuration the parser returns exactly its functions, in interface order;
      descriptors before the first interface (`lead`) contribute nothing. */
  lemma ParseFindsFunctions(lead: seq<Desc>, interfaces: seq<Iface>)
    requires AllWellFormed(lead) && IfacesOk(interfaces) && forall k :: 0 <= k < |lead| ==> !lead[k].Interface?
    ensures Parse(Serialize(lead + Descs(interfaces))) == FunctionsOf(interfaces, -1)
  {
    WalkSerialized(START, lead + Descs(interfaces));
    SeeAppend(START, lead, Descs(interfaces));
    SeeBody(START, lead);
    SeeInterfaces(START, interfaces);
  }

  // ------------------------------------------------------------- composite devices

  /** A part of a composite device: a CDC function (sections 4.2 and 4.5 of USB CDC 1.2), whose
      two interfaces may carry other descriptors, or an interface of some other class. */
  datatype Part =
    | CdcFunction(control: Iface, data: Iface, inEndpoint: nat, outEndpoint: nat)
    | OtherInterface(iface: Iface)

  /** The address of endpoint `number` in one direction. */
  function Address(wantIn: bool, number: nat): nat { if wantIn then 128 + number else number }

  /** `body` holds a bulk endpoint with the address of endpoint `number` in this direction, and no
      bulk endpoint with another number in this direction. */
  predicate HasOneBulk(body: seq<Desc>, wantIn: bool, number: nat) {
    && (exists k :: 0 <= k < |body| && IsBulkEndpoint(body[k], wantIn) && body[k].address == Address(wantIn, number))
    && forall k :: 0 <= k < |body| && IsBulkEndpoint(body[k], wantIn) ==> body[k].address % 16 == number
  }

  predicate PartOk(p: Part) {
    match p
    case CdcFunction(control, data, inEndpoint, outEndpoint) =>
      && IfaceOk(control) && control.head.classCode == 2
      && IfaceOk(data) && data.head.classCode == 10
      && 1 <= inEndpoint <= 15 && HasOneBulk(data.body, true, inEndpoint)
      && 1 <= outEndpoint <= 15 && HasOneBulk(data.body, false, outEndpoint)
    case OtherInterface(iface) =>
      IfaceOk(iface) && iface.head.classCode != 2 && iface.head.classCode != 10
  }

  predicate PartsOk(ps: seq<Part>) {
    forall k :: 0 <= k < |ps| ==> PartOk(ps[k])
  }

  function Ifaces(ps: seq<Part>): (interfaces: seq<Iface>)
    requires PartsOk(ps)
    ensures IfacesOk(interfaces)
  {
    if ps == [] then []
    else (match ps[0]
          case CdcFunction(control, data, _, _) => [control, data]
          case OtherInterface(iface) => [iface]) + Ifaces(ps[1..])
  }

  function CdcFunctions(ps: seq<Part>): seq<CdcDataPair>
    requires PartsOk(ps)
  {
    if ps == [] then []
    else (match ps[0]
          case CdcFunction(control, _, inEndpoint, outEndpoint) =>
            [CdcDataPair(control.head.number, inEndpoint, outEndpoint)]
          case OtherInterface(_) => []) + CdcFunctions(ps[1..])
  }

  lemma {:induction false} LastBulkOfOne(body: seq<Desc>, wantIn: bool, number: nat)
    requires HasOneBulk(body, wantIn, number)
    ensures LastBulk(body, wantIn) == number
  {
    var d, front := body[|body| - 1], body[..|body| - 1];
    if !IsBulkEndpoint(d, wantIn) {
      assert forall k :: 0 <= k < |front| ==> front[k] == body[k];
      var k :| 0 <= k < |body| && IsBulkEndpoint(body[k], wantIn) && body[k].address == Address(wantIn, number);
      assert IsBulkEndpoint(front[k], wantIn) && front[k].address == Address(wantIn, number);
      LastBulkOfOne(front, wantIn, number);
    }
  }

  /** A CDC function in front of other interfaces is found first. */
  lemma FunctionInFront(p: Part, rest: seq<Iface>)
    requires PartOk(p) && p.CdcFunction? && IfacesOk(rest)
    ensures IfacesOk([p.control, p.data] + rest)
    ensures FunctionsOf([p.control, p.data] + rest, -1) ==
            [CdcDataPair(p.control.head.number, p.inEndpoint, p.outEndpoint)] + FunctionsOf(rest, -1)
  {
    LastBulkOfOne(p.data.body, true, p.inEndpoint);
    LastBulkOfOne(p.data.body, false, p.outEndpoint);
    var interfaces := [p.control, p.data] + rest;
    assert interfaces[1..] == [p.data] + rest && interfaces[1..][1..] == rest;
  }

  lemma {:induction false} FunctionsOfComposite(ps: seq<Part>)
    requires PartsOk(ps)
    ensures FunctionsOf(Ifaces(ps), -1) == CdcFunctions(ps)
  {
    if ps != [] {
      var rest := Ifaces(ps[1..]);
      FunctionsOfComposite(ps[1..]);
      if ps[0].CdcFunction? {
        FunctionInFront(ps[0], rest);
      } else {
        assert ([ps[0].iface] + rest)[1..] == rest;
      }
    }
  }

  /** The whole configuration descriptor of a composite device; wTotalLength is its length. */
  function Configuration(tail: seq<byte>, ps: seq<Part>): seq<byte>
    requires PartsOk(ps) && |tail| == 5
  {
    var total := (9 + |Serialize(Descs(Ifaces(ps)))|) % 65536;
    Serialize([Plain(2, [total % 256, total / 256] + tail)] + Descs(Ifaces(ps)))
  }

  /** Parsing inverts serialising: exactly the CDC functions of the composite come back, in order,
      each with its control interface and its two endpoints. */
  lemma DescriptorRoundTrip(tail: seq<byte>, ps: seq<Part>)
    requires PartsOk(ps) && |tail| == 5
    ensures Parse(Configuration(tail, ps)) == CdcFunctions(ps)
  {
    var total := (9 + |Serialize(Descs(Ifaces(ps)))|) % 65536;
    ParseFindsFunctions([Plain(2, [total % 256, total / 256] + tail)], Ifaces(ps));
    FunctionsOfComposite(ps);
  }

  /** wTotalLength as the bridge reads it from the first nine bytes. */
  function TotalLength(header: seq<byte>): nat
    requires |header| >= 9
  {
    var low: int, high: int := header[2], header[3];
    low + 256 * high
  }

  /** The header announces the whole descriptor, if its length fits the sixteen-bit field. */
  lemma HeaderAnnouncesAll(tail: seq<byte>, ps: seq<Part>)
    requires PartsOk(ps) && |tail| == 5
    ensures var full := Configuration(tail, ps);
            |full| >= 9 && (TotalLength(full[..9]) == |full| <==> |full| < 65536)
  {
    var all := Serialize(Descs(Ifaces(ps)));
    var total := (9 + |all|) % 65536;
    var head := Plain(2, [total % 256, total / 256] + tail);
    assert ([head] + Descs(Ifaces(ps)))[1..] == Descs(Ifaces(ps));
    assert Configuration(tail, ps) == Bytes(head) + all;
    assert Bytes(head)[2] == total % 256 && Bytes(head)[3] == total / 256;
  }
}
