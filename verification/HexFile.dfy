/** The hex file that carries framed requests from the Python generator to the C host app:
    scripts/lib/ble/studio_requests.py:178-214 and ble-studio-host/hex2inc.py:20-37. */
module HexFile {
  import opened Common
  import opened Framing
  import opened HexText

  // ------------------------------------------------------------- lines

  /** The characters that end a line for str.splitlines. */
  predicate IsLineBreak(c: char) {
    c == '\n' || c == '\r' || c == '\U{0B}' || c == '\U{0C}' || '\U{1C}' <= c <= '\U{1E}' || c == '\U{85}'
    || c == '\U{2028}' || c == '\U{2029}'
  }

  /** The characters str.strip removes. */
  predicate IsSpace(c: char) {
    IsLineBreak(c) || c == ' ' || c == '\t' || c == '\U{1F}' || c == '\U{A0}' || c == '\U{1680}'
    || '\U{2000}' <= c <= '\U{200A}' || c == '\U{202F}' || c == '\U{205F}' || c == '\U{3000}'
  }

  function FirstBreak(s: string): (n: nat)
    ensures n <= |s|
    decreases |s|
  {
    if s == "" || IsLineBreak(s[0]) then 0 else 1 + FirstBreak(s[1..])
  }

  /** str.splitlines; a carriage return and the line feed after it are one break. */
  function SplitLines(text: string): seq<string>
    decreases |text|
  {
    if text == "" then []
    else
      var n := FirstBreak(text);
      if n == |text| then [text]
      else
        var width := if text[n] == '\r' && n + 1 < |text| && text[n + 1] == '\n' then 2 else 1;
        [text[..n]] + SplitLines(text[n + width..])
  }

  function LStrip(s: string): string
    decreases |s|
  {
    if s != "" && IsSpace(s[0]) then LStrip(s[1..]) else s
  }

  function RStrip(s: string): string
    decreases |s|
  {
    if s != "" && IsSpace(s[|s| - 1]) then RStrip(s[..|s| - 1]) else s
  }

  function Strip(s: string): string { RStrip(LStrip(s)) }

  predicate Ignored(line: string) {
    Strip(line) == "" || Strip(line)[0] == '#'
  }

  /** What both parsers make of the lines; None if some line that counts is not hexadecimal. */
  function Parsed(lines: seq<string>): Option<seq<seq<byte>>> {
    if lines == [] then Some([])
    else
      var before, last := Parsed(lines[..|lines| - 1]), lines[|lines| - 1];
      if before.None? || Ignored(last) then before
      else if FromHex(Strip(last)).Some? then Some(before.value + [FromHex(Strip(last)).value])
      else None
  }

  predicate BadLine(line: string) {
    !Ignored(line) && FromHex(Strip(line)).None?
  }

  lemma ParsedIgnored(lines: seq<string>, i: nat)
    requires i < |lines| && Parsed(lines[..i]).Some? && Ignored(lines[i])
    ensures Parsed(lines[..i + 1]) == Parsed(lines[..i]) && !BadLine(lines[i])
  {
    assert lines[..i + 1][..i] == lines[..i] && lines[..i + 1][i] == lines[i];
  }

  lemma ParsedLine(lines: seq<string>, i: nat, data: seq<byte>)
    requires i < |lines| && Parsed(lines[..i]).Some? && !Ignored(lines[i]) && FromHex(Strip(lines[i])) == Some(data)
    ensures Parsed(lines[..i + 1]) == Some(Parsed(lines[..i]).value + [data]) && !BadLine(lines[i])
  {
    assert lines[..i + 1][..i] == lines[..i] && lines[..i + 1][i] == lines[i];
  }

  /** What one line gives: nothing, the bytes of a request, or a complaint. */
  datatype LineRead = Nothing | Request(data: seq<byte>) | NotHex

  /** The body that the two parsers' loops share. */
  method ReadLine(raw: string) returns (r: LineRead)
    ensures r == if Ignored(raw) then Nothing else if BadLine(raw) then NotHex else Request(FromHex(Strip(raw)).value)
  {
    var line := Strip(raw);
    if line == "" || line[0] == '#' {
      return Nothing;
    }
    var bytes := FromHex(line);
    r := if bytes == None then NotHex else Request(bytes.value);
  }

  /** parse_hex_file of studio_requests.py; None is the ValueError that escapes it. */
  method ParseHexFile(text: string) returns (payloads: Option<seq<seq<byte>>>)
    ensures payloads == Parsed(SplitLines(text))
    ensures payloads.None? <==> exists i :: 0 <= i < |SplitLines(text)| && BadLine(SplitLines(text)[i])
  {
    payloads := ParseHexLines(SplitLines(text));
  }

  method ParseHexLines(lines: seq<string>) returns (payloads: Option<seq<seq<byte>>>)
    ensures payloads == Parsed(lines)
    ensures payloads.None? <==> exists i :: 0 <= i < |lines| && BadLine(lines[i])
  {
    var found: seq<seq<byte>> := [];
    for i := 0 to |lines|
      invariant Parsed(lines[..i]) == Some(found)
      invariant forall j :: 0 <= j < i ==> !BadLine(lines[j])
    {
      var read := ReadLine(lines[i]);
      match read
      case Nothing => ParsedIgnored(lines, i);
      case NotHex =>
        ParsedBad(lines, i);
        return None;
      case Request(data) =>
        ParsedLine(lines, i, data);
        found := found + [data];
    }
    assert lines[..|lines|] == lines;
    payloads := Some(found);
  }

  lemma {:induction false} ParsedBad(lines: seq<string>, i: nat)
    requires i < |lines| && BadLine(lines[i])
    ensures Parsed(lines).None?
    decreases |lines|
  {
    if i < |lines| - 1 {
      ParsedBad(lines[..|lines| - 1], i);
    }
  }

  datatype Converted = Payloads(payloads: seq<seq<byte>>) | Exit(lineno: nat)

  /** parse_hex_file of hex2inc.py: the same payloads, or exit naming the first bad line. */
  method Hex2IncParse(text: string) returns (r: Converted)
    ensures r.Payloads? ==> Parsed(SplitLines(text)) == Some(r.payloads)
    ensures r.Exit? ==> Parsed(SplitLines(text)).None? && IsFirstBad(SplitLines(text), r.lineno)
  {
    r := Hex2IncParseLines(SplitLines(text));
  }

  /** The first bad line, counted from 1. */
  predicate IsFirstBad(lines: seq<string>, lineno: nat) {
    1 <= lineno <= |lines| && BadLine(lines[lineno - 1]) && forall j :: 0 <= j < lineno - 1 ==> !BadLine(lines[j])
  }

  method Hex2IncParseLines(lines: seq<string>) returns (r: Converted)
    ensures r.Payloads? ==> Parsed(lines) == Some(r.payloads)
    ensures r.Exit? ==> Parsed(lines).None? && IsFirstBad(lines, r.lineno)
  {
    var found: seq<seq<byte>> := [];
    for i := 0 to |lines|
      invariant Parsed(lines[..i]) == Some(found)
      invariant forall j :: 0 <= j < i ==> !BadLine(lines[j])
    {
      var read := ReadLine(lines[i]);
      match read
      case Nothing => ParsedIgnored(lines, i);
      case NotHex =>
        ParsedBad(lines, i);
        return Exit(i + 1);
      case Request(data) =>
        ParsedLine(lines, i, data);
        found := found + [data];
    }
    assert lines[..|lines|] == lines;
    r := Payloads(found);
  }

  // ------------------------------------------------------------- what a text means, line by line

  /** A line that ends the text needs no line break, and an empty text has no line. */
  lemma LastLine(line: string)
    requires forall i :: 0 <= i < |line| ==> !EndsLine(line[i])
    ensures SplitLines(line) == if line == "" then [] else [line]
  {
    WholeLine(line);
  }

  /** The characters that end a line for str.splitlines, by their codes. */
  predicate EndsLine(c: char) {
    c as int in {0x0A, 0x0B, 0x0C, 0x0D, 0x1C, 0x1D, 0x1E, 0x85, 0x2028, 0x2029}
  }

  lemma {:induction false} WholeLine(line: string)
    requires forall i :: 0 <= i < |line| ==> !EndsLine(line[i])
    ensures FirstBreak(line) == |line|
    decreases |line|
  {
    if line != "" {
      assert !EndsLine(line[0]);
      WholeLine(line[1..]);
    }
  }

  /** Any of those characters ends a line, and so does a carriage return with a line feed. */
  lemma BrokenLine(line: string, ending: string, rest: string)
    requires forall i :: 0 <= i < |line| ==> !EndsLine(line[i])
    requires ending == "\r\n" || (|ending| == 1 && EndsLine(ending[0]))
    requires !(ending == "\r" && rest != "" && rest[0] == '\n')
    ensures SplitLines(line + (ending + rest)) == [line] + SplitLines(rest)
  {
    BreakBehind(line, ending + rest);
    Pieces(line, ending, rest);
    SplitAtBreak(line + (ending + rest), |line|, |ending|);
  }

  lemma Pieces(line: string, ending: string, rest: string)
    requires ending != ""
    ensures var text, n := line + (ending + rest), |line|;
            && text[..n] == line && text[n + |ending|..] == rest && text[n] == ending[0]
            && (|ending| == 1 && rest != "" ==> text[n + 1] == rest[0]) && (|ending| > 1 ==> text[n + 1] == ending[1])
  {
  }

  lemma SplitAtBreak(text: string, n: nat, width: nat)
    requires FirstBreak(text) == n < |text|
    requires width == if text[n] == '\r' && n + 1 < |text| && text[n + 1] == '\n' then 2 else 1
    ensures SplitLines(text) == [text[..n]] + SplitLines(text[n + width..])
  {
  }

  lemma {:induction false} BreakBehind(line: string, rest: string)
    requires forall i :: 0 <= i < |line| ==> !EndsLine(line[i])
    requires rest != "" && EndsLine(rest[0])
    ensures FirstBreak(line + rest) == |line|
    decreases |line|
  {
    var s := line + rest;
    if line == "" {
      assert s == rest;
    } else {
      assert !EndsLine(line[0]) && s[1..] == line[1..] + rest;
      BreakBehind(line[1..], rest);
    }
  }

  predicate Blank(s: string) {
    forall i :: 0 <= i < |s| ==> s[i] == ' ' || s[i] == '\t'
  }

  lemma {:induction false} LStripBlank(left: string, rest: string)
    requires Blank(left) && (rest != "" ==> rest[0] > ' ' && rest[0] <= '~')
    ensures LStrip(left + rest) == rest
    decreases |left|
  {
    var s := left + rest;
    if left == "" {
      assert s == rest;
    } else {
      assert s[0] == left[0] && s[1..] == left[1..] + rest;
      LStripBlank(left[1..], rest);
    }
  }

  lemma {:induction false} RStripBlank(rest: string, right: string)
    requires Blank(right) && (rest != "" ==> rest[|rest| - 1] > ' ' && rest[|rest| - 1] <= '~')
    ensures RStrip(rest + right) == rest
    decreases |right|
  {
    var s := rest + right;
    if right == "" {
      assert s == rest;
    } else {
      assert s[|s| - 1] == right[|right| - 1] && s[..|s| - 1] == rest + right[..|right| - 1];
      RStripBlank(rest, right[..|right| - 1]);
    }
  }

  /** Blanks around a text that starts and ends with visible characters are stripped. */
  lemma StripBlanks(left: string, text: string, right: string)
    requires Blank(left) && Blank(right)
    requires text != "" ==> text[0] > ' ' && text[0] <= '~' && text[|text| - 1] > ' ' && text[|text| - 1] <= '~'
    requires text == "" ==> right == ""
    ensures Strip(left + (text + right)) == text
  {
    if text == "" {
      assert text + right == "";
    } else {
      assert (text + right)[0] == text[0];
    }
    LStripBlank(left, text + right);
    RStripBlank(text, right);
  }

  /** A blank line, or one whose first visible character is `#`, gives nothing, however far it is
      indented. */
  lemma IgnoredLine(left: string, text: string)
    requires Blank(left) && (text != "" ==> text[0] == '#')
    ensures Ignored(left + text)
  {
    LStripBlank(left, text);
    if text != "" {
      RStripKeepsHead(text);
    }
  }

  /** A line gives the bytes that it spells in digits of either case, with blanks around them. */
  lemma RequestLine(left: string, digits: string, right: string, data: seq<byte>)
    requires Blank(left) && Blank(right) && data != [] && Spells(digits, data)
    ensures !Ignored(left + (digits + right)) && FromHex(Strip(left + (digits + right))) == Some(data)
  {
    var n := |data|;
    assert IsDigit(digits[2 * 0], data[0] / 16) && IsDigit(digits[2 * (n - 1) + 1], data[n - 1] % 16);
    StripBlanks(left, digits, right);
    SpellingIsRead(digits, data, "");
    assert digits + "" == digits && data + [] == data;
  }

  // ------------------------------------------------------------- rendering

  /** A request, as opaque serialised bytes, with or without a name. */
  datatype Entry = Named(name: string, request: seq<byte>) | Bare(request: seq<byte>)

  function Decimal(n: nat): string {
    if n < 10 then [HexDigit(n)] else Decimal(n / 10) + [HexDigit(n % 10)]
  }

  function DecimalValue(s: string): nat {
    if s == "" then 0
    else
      var c := s[|s| - 1];
      10 * DecimalValue(s[..|s| - 1]) + (if '0' <= c <= '9' then c as int - 48 else 0)
  }

  /** The decimal digits of a position read as that position. */
  lemma {:induction false} DecimalReadsBack(n: nat)
    ensures DecimalValue(Decimal(n)) == n
  {
    if n >= 10 {
      DecimalReadsBack(n / 10);
      assert Decimal(n)[..|Decimal(n)| - 1] == Decimal(n / 10);
    } else {
      assert Decimal(n)[..0] == "";
    }
  }

  function NameOf(e: Entry, i: nat): string {
    if e.Named? then e.name else "request_" + Decimal(i)
  }

  // The header lines, in pieces short enough to check character by character.
  const GENERATED_1 := "# GENERATED"
  const GENERATED_2 := " studio_requests"
  const GENERATED_3 := " payload file --"
  const GENERATED_4 := " DO NOT EDIT."
  const SOURCE_1 := "# Edit the source"
  const SOURCE_2 := " (studio_requests"
  const SOURCE_3 := ".json, or your"
  const SOURCE_4 := " generator script)"
  const FORMAT_1 := "# One hex-encoded,"
  const FORMAT_2 := " framed (SOF/ESC/"
  const FORMAT_3 := "EOF) zmk.studio."
  const FORMAT_4 := "Request per line;"
  const ORDER_1 := "# the ble-studio"
  const ORDER_2 := "-host app sends "
  const ORDER_3 := "them in order, "
  const ORDER_4 := "one per response."

  /** The comment block at the top of the file. */
  function Header(): seq<string> {
    [GENERATED_1 + GENERATED_2 + GENERATED_3 + GENERATED_4, SOURCE_1 + SOURCE_2 + SOURCE_3 + SOURCE_4,
     "# and regenerate instead.", "#",
     FORMAT_1 + FORMAT_2 + FORMAT_3 + FORMAT_4, ORDER_1 + ORDER_2 + ORDER_3 + ORDER_4]
  }

  function RequestLines(entries: seq<Entry>): seq<string> {
    if entries == [] then []
    else
      var n := |entries| - 1;
      RequestLines(entries[..n]) + ["# " + NameOf(entries[n], n), Hex(Frame(entries[n].request))]
  }

  /** Each request has a comment line with its name, or with its position if it has none, and a line of
      hexadecimal. */
  lemma RequestLinesAt(entries: seq<Entry>, i: nat)
    requires i < |entries|
    ensures var lines, e := RequestLines(entries), entries[i];
            && |lines| == 2 * |entries|
            && lines[2 * i] == "# " + (if e.Named? then e.name else "request_" + Decimal(i))
            && lines[2 * i + 1] == Hex(Frame(e.request))
  {
    RequestLineCount(entries);
    RequestLineCount(entries[..i]);
    LinesGrow(entries, i + 1);
    LastTwoLines(entries[..i + 1]);
    assert entries[..i + 1][..i] == entries[..i];
  }

  lemma LastTwoLines(entries: seq<Entry>)
    requires entries != []
    ensures var lines, n := RequestLines(entries), |entries| - 1;
            && |lines| == |RequestLines(entries[..n])| + 2
            && lines[|lines| - 2] == "# " + NameOf(entries[n], n)
            && lines[|lines| - 1] == Hex(Frame(entries[n].request))
  {
  }

  lemma {:induction false} LinesGrow(entries: seq<Entry>, n: nat)
    requires n <= |entries|
    ensures RequestLines(entries[..n]) <= RequestLines(entries)
    decreases |entries|
  {
    if n == |entries| {
      assert entries[..n] == entries;
    } else {
      LinesGrow(entries[..|entries| - 1], n);
      assert entries[..|entries| - 1][..n] == entries[..n];
    }
  }

  lemma {:induction false} RequestLineCount(entries: seq<Entry>)
    ensures |RequestLines(entries)| == 2 * |entries|
  {
    if entries != [] {
      RequestLineCount(entries[..|entries| - 1]);
    }
  }

  function Text(lines: seq<string>): string {
    if lines == [] then "" else Text(lines[..|lines| - 1]) + lines[|lines| - 1] + "\n"
  }

  /** render_hex over _normalize: name each request, then two lines per request. */
  method RenderHex(entries: seq<Entry>) returns (text: string)
    ensures text == Text(Header() + RequestLines(entries))
  {
    var named: seq<(string, seq<byte>)> := [];
    for i := 0 to |entries|
      invariant |named| == i
      invariant forall j :: 0 <= j < i ==> named[j] == (NameOf(entries[j], j), entries[j].request)
    {
      var e := entries[i];
      named := named + [(if e.Named? then e.name else "request_" + Decimal(i), e.request)];
    }
    var lines := Header();
    for i := 0 to |entries|
      invariant lines == Header() + RequestLines(entries[..i])
    {
      assert entries[..i + 1][..i] == entries[..i];
      var framed := EncodeFrame(named[i].1);
      lines := lines + ["# " + named[i].0, Hex(framed)];
    }
    assert entries[..|entries|] == entries;
    text := Text(lines);
  }

  predicate NoBreaks(s: string) {
    forall i :: 0 <= i < |s| ==> !IsLineBreak(s[i])
  }

  lemma {:induction false} FirstBreakAt(line: string, rest: string)
    requires NoBreaks(line)
    ensures FirstBreak(line + "\n" + rest) == |line|
    decreases |line|
  {
    var s := line + "\n" + rest;
    if line != "" {
      assert s[1..] == line[1..] + "\n" + rest;
      FirstBreakAt(line[1..], rest);
    }
  }

  lemma SplitOne(line: string, rest: string)
    requires NoBreaks(line)
    ensures SplitLines(line + "\n" + rest) == [line] + SplitLines(rest)
  {
    FirstBreakAt(line, rest);
    var s := line + "\n" + rest;
    assert s[|line|] == '\n' && s[..|line|] == line && s[|line| + 1..] == rest;
  }

  lemma {:induction false} TextCons(line: string, lines: seq<string>)
    ensures Text([line] + lines) == line + "\n" + Text(lines)
  {
    if lines == [] {
      assert [line] + lines == [line] && [line][..0] == [];
    } else {
      assert ([line] + lines)[..|lines|] == [line] + lines[..|lines| - 1];
      TextCons(line, lines[..|lines| - 1]);
    }
  }

  /** Splitting inverts joining, for lines without breaks. */
  lemma {:induction false} SplitText(lines: seq<string>)
    requires forall i :: 0 <= i < |lines| ==> NoBreaks(lines[i])
    ensures SplitLines(Text(lines)) == lines
    decreases |lines|
  {
    if lines != [] {
      assert lines == [lines[0]] + lines[1..];
      TextCons(lines[0], lines[1..]);
      SplitOne(lines[0], Text(lines[1..]));
      SplitText(lines[1..]);
    }
  }

  lemma {:induction false} RStripKeepsHead(s: string)
    requires s != "" && !IsSpace(s[0])
    ensures RStrip(s) != "" && RStrip(s)[0] == s[0]
    decreases |s|
  {
    if |s| > 1 && IsSpace(s[|s| - 1]) {
      RStripKeepsHead(s[..|s| - 1]);
    }
  }

  lemma CommentIgnored(line: string)
    requires line != "" && line[0] == '#'
    ensures Ignored(line)
  {
    RStripKeepsHead(line);
  }

  lemma {:induction false} HexChars(data: seq<byte>)
    ensures |Hex(data)| == 2 * |data|
    ensures forall i :: 0 <= i < |Hex(data)| ==> DigitValue(Hex(data)[i]).Some?
    decreases |data|
  {
    if data != [] {
      HexDigitValue(data[0] / 16);
      HexDigitValue(data[0] % 16);
      HexChars(data[1..]);
    }
  }

  lemma HexLine(data: seq<byte>)
    requires data != []
    ensures NoBreaks(Hex(data)) && Strip(Hex(data)) == Hex(data) && !Ignored(Hex(data))
    ensures FromHex(Strip(Hex(data))) == Some(data)
  {
    HexChars(data);
    HexRoundTrip(data);
  }

  function FramesOf(entries: seq<Entry>): (frames: seq<seq<byte>>)
    ensures |frames| == |entries| && forall i :: 0 <= i < |entries| ==> frames[i] == Frame(entries[i].request)
  {
    seq(|entries|, i requires 0 <= i < |entries| => Frame(entries[i].request))
  }

  /** No name that the caller supplied contains a line break. */
  predicate NamesOk(entries: seq<Entry>) {
    forall i :: 0 <= i < |entries| && entries[i].Named? ==> NoBreaks(entries[i].name)
  }

  lemma {:induction false} DecimalHasNoBreaks(n: nat)
    ensures NoBreaks(Decimal(n))
  {
    if n < 10 {
      HexDigitValue(n);
    } else {
      HexDigitValue(n % 10);
      DecimalHasNoBreaks(n / 10);
    }
  }

  lemma NameHasNoBreaks(e: Entry, i: nat)
    requires e.Named? ==> NoBreaks(e.name)
    ensures NoBreaks("# " + NameOf(e, i))
  {
    DecimalHasNoBreaks(i);
  }

  lemma {:induction false} ParsedAppend(a: seq<string>, comment: string, hex: string)
    requires Parsed(a).Some? && comment != "" && comment[0] == '#' && !Ignored(hex) && FromHex(Strip(hex)).Some?
    ensures Parsed(a + [comment, hex]) == Some(Parsed(a).value + [FromHex(Strip(hex)).value])
  {
    CommentIgnored(comment);
    var lines := a + [comment, hex];
    assert lines[..|lines| - 1] == a + [comment] && (a + [comment])[..|a|] == a;
  }

  lemma {:induction false} AllComments(lines: seq<string>)
    requires forall i :: 0 <= i < |lines| ==> lines[i] != "" && lines[i][0] == '#'
    ensures Parsed(lines) == Some([])
  {
    if lines != [] {
      CommentIgnored(lines[|lines| - 1]);
      AllComments(lines[..|lines| - 1]);
    }
  }

  lemma FourPieces(a: string, b: string, c: string, d: string)
    requires NoBreaks(a) && NoBreaks(b) && NoBreaks(c) && NoBreaks(d) && a != "" && a[0] == '#'
    ensures NoBreaks(a + b + c + d) && (a + b + c + d)[0] == '#'
  {
  }

  lemma GeneratedLine()
    ensures NoBreaks(GENERATED_1) && NoBreaks(GENERATED_2) && NoBreaks(GENERATED_3) && NoBreaks(GENERATED_4)
  {
  }

  lemma SourceLine()
    ensures NoBreaks(SOURCE_1) && NoBreaks(SOURCE_2) && NoBreaks(SOURCE_3) && NoBreaks(SOURCE_4)
  {
  }

  lemma FormatLine()
    ensures NoBreaks(FORMAT_1) && NoBreaks(FORMAT_2) && NoBreaks(FORMAT_3) && NoBreaks(FORMAT_4)
  {
  }

  lemma OrderLine()
    ensures NoBreaks(ORDER_1) && NoBreaks(ORDER_2) && NoBreaks(ORDER_3) && NoBreaks(ORDER_4)
  {
  }

  lemma RegenerateLine()
    ensures NoBreaks("# and regenerate instead.")
  {
  }

  lemma HeaderIsComments()
    ensures AllCommentLines(Header())
  {
    GeneratedLine();
    SourceLine();
    FormatLine();
    OrderLine();
    RegenerateLine();
    FourPieces(GENERATED_1, GENERATED_2, GENERATED_3, GENERATED_4);
    FourPieces(SOURCE_1, SOURCE_2, SOURCE_3, SOURCE_4);
    FourPieces(FORMAT_1, FORMAT_2, FORMAT_3, FORMAT_4);
    FourPieces(ORDER_1, ORDER_2, ORDER_3, ORDER_4);
  }

  predicate AllCommentLines(lines: seq<string>) {
    forall i :: 0 <= i < |lines| ==> NoBreaks(lines[i]) && lines[i] != "" && lines[i][0] == '#'
  }

  lemma {:induction false} RenderedHasNoBreaks(head: seq<string>, entries: seq<Entry>)
    requires NamesOk(entries) && AllCommentLines(head)
    ensures forall line :: line in head + RequestLines(entries) ==> NoBreaks(line)
    decreases |entries|
  {
    if entries != [] {
      var n := |entries| - 1;
      RenderedHasNoBreaks(head, entries[..n]);
      NameHasNoBreaks(entries[n], n);
      HexLine(Frame(entries[n].request));
    }
  }

  lemma LastFrame(entries: seq<Entry>)
    requires entries != []
    ensures FramesOf(entries) == FramesOf(entries[..|entries| - 1]) + [Frame(entries[|entries| - 1].request)]
  {
  }

  lemma {:induction false} RenderedParses(head: seq<string>, entries: seq<Entry>)
    requires AllCommentLines(head)
    ensures Parsed(head + RequestLines(entries)) == Some(FramesOf(entries))
    decreases |entries|
  {
    if entries == [] {
      AllComments(head);
      assert head + RequestLines(entries) == head;
    } else {
      var n := |entries| - 1;
      var framed := Frame(entries[n].request);
      RenderedParses(head, entries[..n]);
      HexLine(framed);
      ParsedAppend(head + RequestLines(entries[..n]), "# " + NameOf(entries[n], n), Hex(framed));
      Assoc(head, RequestLines(entries[..n]), ["# " + NameOf(entries[n], n), Hex(framed)]);
      LastFrame(entries);
    }
  }

  /** Rendering and parsing back gives the framed requests, in order, for any names without
      line breaks. */
  lemma HexFileRoundTrip(entries: seq<Entry>)
    requires NamesOk(entries)
    ensures Parsed(SplitLines(Text(Header() + RequestLines(entries)))) == Some(FramesOf(entries))
  {
    HeaderIsComments();
    RenderedHasNoBreaks(Header(), entries);
    RenderedParses(Header(), entries);
    SplitText(Header() + RequestLines(entries));
  }

  // ------------------------------------------------------------- the C table

  function Literal(b: byte): string { "0x" + HexByte(b) }

  /** Between the literals of a row, and after its last one. */
  function Separator(left: nat): string { if left == 1 then "," else ", " }

  function Row(data: seq<byte>): string
    decreases |data|
  {
    if data == [] then "" else Literal(data[0]) + Separator(|data|) + Row(data[1..])
  }

  /** The `k`-th row shows the `k`-th twelve bytes. */
  predicate IsRow(data: seq<byte>, k: nat, row: string) {
    12 * k < |data| && row == "    " + Row(data[12 * k..Min(12 * k + 12, |data|)])
  }

  /** Rows that show the data in order and cover it. */
  predicate AreRows(data: seq<byte>, rows: seq<string>) {
    |data| <= 12 * |rows| && forall k :: 0 <= k < |rows| ==> IsRow(data, k, rows[k])
  }

  /** c_array's rows: twelve bytes a row. */
  method CRows(data: seq<byte>) returns (rows: seq<string>)
    ensures AreRows(data, rows)
  {
    rows := [];
    var i := 0;
    while i < |data|
      invariant i == 12 * |rows|
      invariant forall k :: 0 <= k < |rows| ==> IsRow(data, k, rows[k])
    {
      rows := rows + ["    " + Row(data[i..Min(i + 12, |data|)])];
      i := i + 12;
    }
  }

  /** An initialiser as a C compiler reads it: two-digit hexadecimal literals with a comma behind each,
      which the last one may leave out, and blanks and line feeds before them. */
  function ReadLiterals(s: string): Option<seq<byte>>
    decreases |s|
  {
    if s == "" then Some([])
    else if s[0] == ' ' || s[0] == '\n' then ReadLiterals(s[1..])
    else if |s| >= 4 && s[..2] == "0x" && DigitValue(s[2]).Some? && DigitValue(s[3]).Some? then
      var high, low := DigitValue(s[2]).value, DigitValue(s[3]).value;
      if |s| == 4 then Some([16 * high + low])
      else
        var rest := ReadLiterals(s[5..]);
        if s[4] == ',' && rest.Some? then Some([16 * high + low] + rest.value) else None
    else None
  }

  lemma ReadLiteral(b: byte, rest: string)
    requires ReadLiterals(rest).Some?
    ensures ReadLiterals(Literal(b) + ("," + rest)) == Some([b] + ReadLiterals(rest).value)
  {
    HexDigitValue(b / 16);
    HexDigitValue(b % 16);
    var s := Literal(b) + ("," + rest);
    assert s[..2] == "0x" && s[2..4] == HexByte(b) && s[4] == ',' && s[5..] == rest;
    assert s[2] == HexByte(b)[0] && s[3] == HexByte(b)[1] && s[0] == '0';
  }

  lemma SkipBlank(c: char, rest: string)
    requires c == ' ' || c == '\n'
    ensures ReadLiterals([c] + rest) == ReadLiterals(rest)
  {
    assert ([c] + rest)[1..] == rest;
  }

  lemma RowSplits(data: seq<byte>, rest: string)
    requires data != []
    ensures Row(data) + rest == Literal(data[0]) + (Separator(|data|) + (Row(data[1..]) + rest))
  {
    Regroup(Literal(data[0]), Separator(|data|), Row(data[1..]), rest);
  }

  lemma Regroup(a: string, b: string, c: string, d: string)
    ensures a + b + c + d == a + (b + (c + d))
  {
  }

  lemma {:induction false} ReadRow(data: seq<byte>, rest: string)
    requires ReadLiterals(rest).Some?
    ensures ReadLiterals(Row(data) + rest) == Some(data + ReadLiterals(rest).value)
    decreases |data|
  {
    var values := ReadLiterals(rest).value;
    if data == [] {
      assert Row(data) + rest == rest;
      assert data + values == values;
    } else {
      ReadRow(data[1..], rest);
      ReadItem(data[0], |data|, Row(data[1..]) + rest);
      RowSplits(data, rest);
      SplitHead(data, values);
    }
  }

  lemma ReadItem(b: byte, left: nat, tail: string)
    requires ReadLiterals(tail).Some?
    ensures ReadLiterals(Literal(b) + (Separator(left) + tail)) == Some([b] + ReadLiterals(tail).value)
  {
    if left == 1 {
      ReadLiteral(b, tail);
    } else {
      SkipBlank(' ', tail);
      ReadLiteral(b, [' '] + tail);
      assert ", " + tail == "," + ([' '] + tail);
    }
  }

  function JoinRows(rows: seq<string>): string {
    if rows == [] then "" else rows[0] + LineEnd(|rows|) + JoinRows(rows[1..])
  }

  function LineEnd(left: nat): string { if left == 1 then "" else "\n" }

  lemma ReadIndentedRow(chunk: seq<byte>, tail: string)
    requires ReadLiterals(tail).Some?
    ensures ReadLiterals("    " + Row(chunk) + tail) == Some(chunk + ReadLiterals(tail).value)
  {
    ReadRow(chunk, tail);
    var body := Row(chunk) + tail;
    SkipBlank(' ', body);
    SkipBlank(' ', [' '] + body);
    SkipBlank(' ', [' '] + ([' '] + body));
    SkipBlank(' ', [' '] + ([' '] + ([' '] + body)));
    Indented(Row(chunk), tail);
  }

  lemma Indented(row: string, tail: string)
    ensures "    " + row + tail == [' '] + ([' '] + ([' '] + ([' '] + (row + tail))))
  {
  }

  /** The rows of c_array from row `first` on, read back as a C initialiser, are the rest of the
      data. */
  lemma {:induction false} CRowsReadBack(data: seq<byte>, rows: seq<string>, first: nat)
    requires |data| <= 12 * (first + |rows|) && forall k :: 0 <= k < |rows| ==> IsRow(data, first + k, rows[k])
    ensures ReadLiterals(JoinRows(rows)) == Some(data[Min(12 * first, |data|)..])
    decreases |rows|
  {
    if rows == [] {
      assert data[|data|..] == [];
    } else {
      assert IsRow(data, first + 0, rows[0]);
      forall k | 0 <= k < |rows[1..]| ensures IsRow(data, first + 1 + k, rows[1..][k]) {
        assert IsRow(data, first + (k + 1), rows[k + 1]);
      }
      CRowsReadBack(data, rows[1..], first + 1);
      ReadLineEnd(|rows|, JoinRows(rows[1..]));
      RowReadsBack(data, first, rows[0], LineEnd(|rows|) + JoinRows(rows[1..]));
      Assoc(rows[0], LineEnd(|rows|), JoinRows(rows[1..]));
    }
  }

  lemma RowReadsBack(data: seq<byte>, k: nat, row: string, tail: string)
    requires IsRow(data, k, row) && ReadLiterals(tail) == Some(data[Min(12 * (k + 1), |data|)..])
    ensures ReadLiterals(row + tail) == Some(data[12 * k..])
  {
    var end := Min(12 * k + 12, |data|);
    ReadIndentedRow(data[12 * k..end], tail);
    SplitFrom(data, 12 * k, end);
  }

  lemma SplitFrom(data: seq<byte>, start: nat, end: nat)
    requires start <= end <= |data|
    ensures data[start..end] + data[end..] == data[start..]
  {
  }

  lemma ReadLineEnd(left: nat, tail: string)
    ensures ReadLiterals(LineEnd(left) + tail) == ReadLiterals(tail)
  {
    if left == 1 {
      assert LineEnd(left) + tail == tail;
    } else {
      SkipBlank('\n', tail);
    }
  }

  /** c_array's text, read as a C initialiser, is the data it was given. */
  lemma CTableRoundTrip(data: seq<byte>, rows: seq<string>)
    requires AreRows(data, rows)
    ensures ReadLiterals(JoinRows(rows)) == Some(data)
  {
    CRowsReadBack(data, rows, 0);
    assert data[0..] == data;
  }
}
