/** From the generator's requests to the bytes the host app writes and back. */
module RequestPipeline {
  import opened Common
  import opened Framing
  import opened HexFile
  import StudioHost

  function RequestsOf(entries: seq<Entry>): (requests: seq<seq<byte>>)
    ensures |requests| == |entries| && forall i :: 0 <= i < |entries| ==> requests[i] == entries[i].request
  {
    seq(|entries|, i requires 0 <= i < |entries| => entries[i].request)
  }

  lemma LastEntry(entries: seq<Entry>)
    requires entries != []
    ensures var n := |entries| - 1;
            && FramesOf(entries) == FramesOf(entries[..n]) + [Frame(entries[n].request)]
            && RequestsOf(entries) == RequestsOf(entries[..n]) + [entries[n].request]
  {
  }

  lemma OneFrameMore(stream: seq<byte>, requests: seq<seq<byte>>, request: seq<byte>)
    requires Decode(Hunting, stream) == (Hunting, requests)
    ensures Decode(Hunting, stream + Frame(request)) == (Hunting, requests + [request])
  {
    DecodeAppend(Hunting, stream, Frame(request));
    DecodeFrame(Hunting, request);
  }

  lemma {:induction false} FramesDecodeBack(entries: seq<Entry>)
    ensures Decode(Hunting, Concat(FramesOf(entries))) == (Hunting, RequestsOf(entries))
  {
    if entries != [] {
      var n := |entries| - 1;
      FramesDecodeBack(entries[..n]);
      LastEntry(entries);
      ConcatSnoc(FramesOf(entries[..n]), Frame(entries[n].request));
      OneFrameMore(Concat(FramesOf(entries[..n])), RequestsOf(entries[..n]), entries[n].request);
    }
  }

  lemma FirstWrittenWhole(entries: seq<Entry>, n: nat)
    requires n <= |entries| && forall e :: e in entries ==> |Frame(e.request)| < 65536
    ensures StudioHost.WrittenAll(FramesOf(entries)[..n]) == FramesOf(entries)[..n] == FramesOf(entries[..n])
    ensures RequestsOf(entries)[..n] == RequestsOf(entries[..n])
  {
    forall i | 0 <= i < n ensures StudioHost.Written(FramesOf(entries)[i]) == FramesOf(entries)[i] {
      assert entries[i] in entries;
      StudioHost.WholeRequestWritten(FramesOf(entries)[i]);
    }
  }

  function Rendered(entries: seq<Entry>): string {
    Text(Header() + RequestLines(entries))
  }

  /** What a C compiler makes of the rows that hex2inc.py writes for one payload. */
  ghost predicate CompiledFrom(payload: seq<byte>, compiled: seq<byte>) {
    exists rows :: AreRows(payload, rows) && ReadLiterals(JoinRows(rows)) == Some(compiled)
  }

  /** `table` is what the app is built with when hex2inc.py is given `text`; a file without payloads
      ends the build. */
  ghost predicate BuiltFrom(text: string, table: seq<seq<byte>>) {
    var payloads := Parsed(SplitLines(text));
    && payloads.Some? && payloads.value != [] && |table| == |payloads.value|
    && forall i :: 0 <= i < |table| ==> CompiledFrom(payloads.value[i], table[i])
  }

  method CompilePayload(payload: seq<byte>) returns (compiled: seq<byte>)
    ensures CompiledFrom(payload, compiled)
  {
    var rows := CRows(payload);
    CTableRoundTrip(payload, rows);
    compiled := ReadLiterals(JoinRows(rows)).value;
  }

  /** hex2inc.py and the compiler. */
  method Compile(text: string) returns (table: Option<seq<seq<byte>>>)
    ensures table.None? <==> Parsed(SplitLines(text)).None? || Parsed(SplitLines(text)).value == []
    ensures table.Some? ==> BuiltFrom(text, table.value)
  {
    var converted := Hex2IncParse(text);
    if converted.Exit? || converted.payloads == [] {
      return None;
    }
    var payloads, compiled: seq<seq<byte>> := converted.payloads, [];
    for i := 0 to |payloads|
      invariant |compiled| == i && forall j :: 0 <= j < i ==> CompiledFrom(payloads[j], compiled[j])
    {
      var next := CompilePayload(payloads[i]);
      compiled := compiled + [next];
    }
    table := Some(compiled);
  }

  lemma CompiledIsPayload(payload: seq<byte>, compiled: seq<byte>)
    requires CompiledFrom(payload, compiled)
    ensures compiled == payload
  {
    var rows :| AreRows(payload, rows) && ReadLiterals(JoinRows(rows)) == Some(compiled);
    CTableRoundTrip(payload, rows);
  }

  /** Every build from a file that parses to some payloads has those payloads as its table. */
  lemma BuiltTable(text: string, table: seq<seq<byte>>)
    requires BuiltFrom(text, table)
    ensures Parsed(SplitLines(text)) == Some(table)
  {
    var payloads := Parsed(SplitLines(text)).value;
    forall i | 0 <= i < |table| ensures table[i] == payloads[i] {
      CompiledIsPayload(payloads[i], table[i]);
    }
    assert table == payloads;
  }

  /** The app has written exactly the frames of the first min(COUNT, subscriptions + responses)
      requests, and decoding what it wrote gives back those requests. */
  predicate WritesTheRequests(entries: seq<Entry>, h: StudioHost.Host, subscriptions: nat) {
    var n := Min(|entries|, subscriptions + |h.handled|);
    h.issued == FramesOf(entries)[..n] && Decode(Hunting, Concat(h.issued)).1 == RequestsOf(entries)[..n]
  }

  /** Built from the file rendered from `entries`, the host app delivers those requests, after any
      events. */
  lemma PipelineDelivers(entries: seq<Entry>, table: seq<seq<byte>>, es: seq<StudioHost.Event>)
    requires NamesOk(entries) && forall e :: e in entries ==> |Frame(e.request)| < 65536
    requires BuiltFrom(Rendered(entries), table)
    ensures WritesTheRequests(entries, StudioHost.Run(es, table), StudioHost.Subscriptions(es))
  {
    HexFileRoundTrip(entries);
    TextDelivers(entries, Rendered(entries), table, es);
  }

  lemma TextDelivers(entries: seq<Entry>, text: string, table: seq<seq<byte>>, es: seq<StudioHost.Event>)
    requires Parsed(SplitLines(text)) == Some(FramesOf(entries)) && BuiltFrom(text, table)
    requires forall e :: e in entries ==> |Frame(e.request)| < 65536
    ensures WritesTheRequests(entries, StudioHost.Run(es, table), StudioHost.Subscriptions(es))
  {
    BuiltTable(text, table);
    TableIsFollowed(entries, es);
  }

  lemma TableIsFollowed(entries: seq<Entry>, es: seq<StudioHost.Event>)
    requires forall e :: e in entries ==> |Frame(e.request)| < 65536
    ensures WritesTheRequests(entries, StudioHost.Run(es, FramesOf(entries)), StudioHost.Subscriptions(es))
  {
    var h := StudioHost.Run(es, FramesOf(entries));
    StudioHost.HostFollowsTheStream(es, FramesOf(entries));
    FirstFramesDecode(entries, h.sent);
  }

  lemma FirstFramesDecode(entries: seq<Entry>, n: nat)
    requires n <= |entries| && forall e :: e in entries ==> |Frame(e.request)| < 65536
    ensures StudioHost.WrittenAll(FramesOf(entries)[..n]) == FramesOf(entries)[..n]
    ensures Decode(Hunting, Concat(FramesOf(entries)[..n])).1 == RequestsOf(entries)[..n]
  {
    FirstWrittenWhole(entries, n);
    FramesDecodeBack(entries[..n]);
  }
}
