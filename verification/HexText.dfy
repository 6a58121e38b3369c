/** Hexadecimal text: bytes.hex().upper() and bytes.fromhex of Python
    (scripts/lib/ble/studio_requests.py:201-213, ble-studio-host/hex2inc.py:26-29). */
module HexText {
  import opened Common

  function HexDigit(n: nat): char
    requires n < 16
  {
    if n < 10 then '0' + n as char else 'A' + (n - 10) as char
  }

  function DigitValue(c: char): Option<nat> {
    if '0' <= c <= '9' then Some((c - '0') as nat)
    else if 'A' <= c <= 'F' then Some((c - 'A') as nat + 10)
    else if 'a' <= c <= 'f' then Some((c - 'a') as nat + 10)
    else None
  }

  function HexByte(b: byte): string {
    [HexDigit(b / 16), HexDigit(b % 16)]
  }

  function Hex(data: seq<byte>): string
    decreases |data|
  {
    if data == [] then "" else HexByte(data[0]) + Hex(data[1..])
  }

  predicate IsAsciiSpace(c: char) {
    c == ' ' || c == '\t' || c == '\n' || c == '\U{0B}' || c == '\U{0C}' || c == '\r'
  }

  /** bytes.fromhex; None is its ValueError. */
  function FromHex(s: string): Option<seq<byte>>
    decreases |s|
  {
    if s == "" then Some([])
    else if IsAsciiSpace(s[0]) then FromHex(s[1..])
    else if |s| >= 2 && DigitValue(s[0]).Some? && DigitValue(s[1]).Some? then
      var rest := FromHex(s[2..]);
      var high, low := DigitValue(s[0]).value, DigitValue(s[1]).value;
      if rest.Some? then Some([16 * high + low] + rest.value) else None
    else None
  }

  lemma HexDigitValue(n: nat)
    requires n < 16
    ensures DigitValue(HexDigit(n)) == Some(n)
  {
  }

  lemma FromHexPair(s: string, high: nat, low: nat)
    requires |s| >= 2 && DigitValue(s[0]) == Some(high) && DigitValue(s[1]) == Some(low)
    ensures var rest := FromHex(s[2..]);
            high < 16 && low < 16 && FromHex(s) == if rest.None? then None else Some([16 * high + low] + rest.value)
  {
  }

  lemma FromHexByte(b: byte, rest: string)
    ensures FromHex(HexByte(b) + rest) == if FromHex(rest).None? then None else Some([b] + FromHex(rest).value)
  {
    HexDigitValue(b / 16);
    HexDigitValue(b % 16);
    var s := HexByte(b) + rest;
    assert s[0] == HexDigit(b / 16) && s[1] == HexDigit(b % 16) && s[2..] == rest;
    FromHexPair(s, b / 16, b % 16);
  }

  /** Writing gives two digits a byte, none of them in lower case. */
  lemma {:induction false} HexSpells(data: seq<byte>)
    ensures Spells(Hex(data), data)
    ensures forall i :: 0 <= i < |Hex(data)| ==> Hex(data)[i] <= 'F'
    decreases |data|
  {
    if data != [] {
      HexSpells(data[1..]);
      HexDigitValue(data[0] / 16);
      HexDigitValue(data[0] % 16);
      var s, t, rest := Hex(data), Hex(data[1..]), data[1..];
      assert s[0] == HexDigit(data[0] / 16) && s[1] == HexDigit(data[0] % 16) && s[2..] == t;
      SpellsCons(s, data);
    }
  }

  lemma {:induction false} HexRoundTrip(data: seq<byte>)
    ensures FromHex(Hex(data)) == Some(data)
    decreases |data|
  {
    if data != [] {
      FromHexByte(data[0], Hex(data[1..]));
      HexRoundTrip(data[1..]);
      assert [data[0]] + data[1..] == data;
    }
  }

  /** The character codes of the digits 0 to 9, A to F and a to f. */
  predicate IsDigit(c: char, v: nat) {
    (v <= 9 && c as int == 48 + v) || (10 <= v <= 15 && (c as int == 55 + v || c as int == 87 + v))
  }

  lemma DigitsOfEitherCase(c: char, v: nat)
    ensures DigitValue(c) == Some(v) <==> IsDigit(c, v)
  {
  }

  /** Two digits a byte, high one first. */
  predicate Spells(s: string, data: seq<byte>) {
    && |s| == 2 * |data|
    && forall i :: 0 <= i < |data| ==> IsDigit(s[2 * i], data[i] / 16) && IsDigit(s[2 * i + 1], data[i] % 16)
  }

  lemma SpellsTail(s: string, data: seq<byte>)
    requires data != [] && Spells(s, data)
    ensures IsDigit(s[0], data[0] / 16) && IsDigit(s[1], data[0] % 16) && Spells(s[2..], data[1..])
  {
    var t, rest := s[2..], data[1..];
    assert data[0] == data[0 + 0] && s[0] == s[2 * 0];
    forall i | 0 <= i < |rest| ensures IsDigit(t[2 * i], rest[i] / 16) && IsDigit(t[2 * i + 1], rest[i] % 16) {
      assert rest[i] == data[i + 1] && t[2 * i] == s[2 * (i + 1)] && t[2 * i + 1] == s[2 * (i + 1) + 1];
    }
  }

  lemma ReadPair(s: string, b: byte)
    requires |s| >= 2 && IsDigit(s[0], b / 16) && IsDigit(s[1], b % 16)
    ensures FromHex(s) == if FromHex(s[2..]).None? then None else Some([b] + FromHex(s[2..]).value)
  {
    var high, low := b / 16, b % 16;
    DigitsOfEitherCase(s[0], high);
    DigitsOfEitherCase(s[1], low);
    FromHexPair(s, high, low);
    assert 16 * high + low == b;
  }

  /** Digits of either case spell their bytes, and blanks before, after and between them do not
      matter: reading goes on behind them. */
  lemma {:induction false} SpellingIsRead(s: string, data: seq<byte>, rest: string)
    requires Spells(s, data)
    ensures FromHex(s + rest) == if FromHex(rest).None? then None else Some(data + FromHex(rest).value)
    decreases |data|
  {
    if data == [] {
      assert s + rest == rest;
      assert FromHex(rest).Some? ==> data + FromHex(rest).value == FromHex(rest).value;
    } else {
      SpellsTail(s, data);
      SpellingIsRead(s[2..], data[1..], rest);
      SplitPair(s, rest);
      ReadPair(s + rest, data[0]);
      if FromHex(rest).Some? {
        SplitHead(data, FromHex(rest).value);
      }
    }
  }

  lemma SplitPair(s: string, rest: string)
    requires |s| >= 2
    ensures (s + rest)[0] == s[0] && (s + rest)[1] == s[1] && (s + rest)[2..] == s[2..] + rest
  {
  }

  lemma SplitHead(data: seq<byte>, more: seq<byte>)
    requires data != []
    ensures [data[0]] + (data[1..] + more) == data + more
  {
  }

  lemma BlankIsSkipped(c: char, rest: string)
    requires c in {' ', '\t', '\n', '\r', '\U{0B}', '\U{0C}'}
    ensures FromHex([c] + rest) == FromHex(rest)
  {
    assert ([c] + rest)[1..] == rest;
  }

  /** A text without blanks is read as some bytes exactly if it spells them. */
  lemma {:induction false} OnlySpellingsAreRead(s: string, data: seq<byte>)
    requires forall i :: 0 <= i < |s| ==> s[i] > ' '
    ensures FromHex(s) == Some(data) <==> Spells(s, data)
    decreases |s|
  {
    if Spells(s, data) {
      SpellingIsRead(s, data, "");
      assert s + "" == s && data + [] == data;
    }
    if FromHex(s) == Some(data) && s != "" {
      OnlySpellingsAreRead(s[2..], data[1..]);
      SpellsCons(s, data);
    }
  }

  lemma SpellsCons(s: string, data: seq<byte>)
    requires |s| >= 2 && data != [] && Spells(s[2..], data[1..])
    requires DigitValue(s[0]).Some? && DigitValue(s[1]).Some?
    requires data[0] == 16 * DigitValue(s[0]).value + DigitValue(s[1]).value
    ensures Spells(s, data)
  {
    DigitsOfEitherCase(s[0], DigitValue(s[0]).value);
    DigitsOfEitherCase(s[1], DigitValue(s[1]).value);
    var t, rest := s[2..], data[1..];
    forall i | 0 <= i < |data| ensures IsDigit(s[2 * i], data[i] / 16) && IsDigit(s[2 * i + 1], data[i] % 16) {
      if i > 0 {
        assert IsDigit(t[2 * (i - 1)], rest[i - 1] / 16) && IsDigit(t[2 * (i - 1) + 1], rest[i - 1] % 16);
      }
    }
  }
}
