/** String and bytes literals: how the emitter escapes their contents and how the scanner reads them. */
module Literals {
  import opened Ascii
  import opened Bits
  import opened Excerpts
  import opened Wrappers
  import Utf8

  // ---------- escape sequences ----------

  function HexValue(c: byte): Option<nat> {
    if 48 <= c <= 57 then Some(c - 48)
    else if 65 <= c <= 70 then Some(c - 65 + 10)
    else if 97 <= c <= 102 then Some(c - 97 + 10)
    else None
  }

  // The bytes an escape stands for, and how many characters after the backslash it takes.
  datatype Escape = Bad | Good(out: seq<byte>, consumed: nat)

  // The hex digits of \u{...} from pos on, up to the closing brace: the code and the position after it.
  function BracedHex(text: seq<byte>, pos: nat, code: nat, digits: nat): (r: Option<(nat, nat)>)
    requires pos <= |text|
    ensures r.Some? ==> pos < r.value.1 <= |text|
    decreases |text| - pos
  {
    if pos == |text| then None
    else if text[pos] == CLOSE_BRACE then if digits == 0 then None else Some((code, pos + 1))
    else
      var v := HexValue(text[pos]);
      if v.None? || digits + 1 > 6 then None else BracedHex(text, pos + 1, code * 16 + v.value, digits + 1)
  }

  // The escape whose first character after the backslash is at pos.
  function Unescape(text: seq<byte>, pos: nat): (r: Escape)
    requires pos <= |text|
    ensures r.Good? ==> 0 < r.consumed && pos + r.consumed <= |text|
  {
    if pos == |text| then Bad
    else
      var c := text[pos];
      if c == BACKSLASH || c == QUOTE || c == APOSTROPHE then Good([c], 1)
      else if c == LETTER_N then Good([NEWLINE], 1)
      else if c == LETTER_R then Good([RETURN], 1)
      else if c == LETTER_T then Good([TAB], 1)
      else if c == DIGIT_0 then Good([0], 1)
      else if c == LETTER_X then
        if pos + 3 > |text| then Bad
        else
          var hi, lo := HexValue(text[pos + 1]), HexValue(text[pos + 2]);
          if hi.None? || lo.None? then Bad else Good([hi.value * 16 + lo.value], 3)
      else if c == LETTER_U then
        if pos + 3 > |text| || text[pos + 1] != OPEN_BRACE then Bad
        else
          var r := BracedHex(text, pos + 2, 0, 0);
          if r.None? then Bad
          else
            var out := Utf8.Encode(r.value.0);
            if out == [] then Bad else Good(out, r.value.1 - pos)
      else Bad
  }

  // The loop over the braced digits.
  method ReadBracedHex(text: seq<byte>, start: nat) returns (r: Option<(nat, nat)>)
    requires start <= |text|
    ensures r == BracedHex(text, start, 0, 0)
  {
    var pos, code: nat, digits: nat := start, 0, 0;
    while pos < |text| && text[pos] != CLOSE_BRACE
      invariant start <= pos <= |text| && BracedHex(text, start, 0, 0) == BracedHex(text, pos, code, digits)
      decreases |text| - pos
    {
      var v := HexValue(text[pos]);
      if v.None? { return None; }
      code, digits, pos := code * 16 + v.value, digits + 1, pos + 1;
      if digits > 6 { return None; }
    }
    if pos >= |text| || digits == 0 { return None; }
    return Some((code, pos + 1));
  }

  method UnescapeChar(text: seq<byte>, pos: nat) returns (r: Escape)
    requires pos <= |text|
    ensures r == Unescape(text, pos)
  {
    if pos == |text| { return Bad; }
    match text[pos]
    case 92 => return Good([BACKSLASH], 1);
    case 110 => return Good([NEWLINE], 1);
    case 114 => return Good([RETURN], 1);
    case 116 => return Good([TAB], 1);
    case 48 => return Good([0], 1);
    case 34 => return Good([QUOTE], 1);
    case 39 => return Good([APOSTROPHE], 1);
    case 120 =>
      if |text| - pos < 3 { return Bad; }
      var hi, lo := HexValue(text[pos + 1]), HexValue(text[pos + 2]);
      if hi.None? || lo.None? { return Bad; }
      return Good([hi.value * 16 + lo.value], 3);
    case 117 =>
      if |text| - pos < 3 || text[pos + 1] != OPEN_BRACE { return Bad; }
      var braced := ReadBracedHex(text, pos + 2);
      if braced.None? { return Bad; }
      var out := Utf8.Encode(braced.value.0);
      if out == [] { return Bad; }
      return Good(out, braced.value.1 - pos);
    case _ => return Bad;
  }

  // No escape contains a line break.
  lemma UnescapePlain(text: seq<byte>, pos: nat)
    requires pos <= |text| && Unescape(text, pos).Good?
    ensures forall i :: pos <= i < pos + Unescape(text, pos).consumed ==> !IsNewline(text[i])
  {
    hide BracedHex;
    if text[pos] == LETTER_U { BracedPlain(text, pos + 2, 0, 0); }
  }

  lemma {:induction false} BracedPlain(text: seq<byte>, pos: nat, code: nat, digits: nat)
    requires pos <= |text| && BracedHex(text, pos, code, digits).Some?
    ensures forall i :: pos <= i < BracedHex(text, pos, code, digits).value.1 ==> !IsNewline(text[i])
    decreases |text| - pos
  {
    if text[pos] != CLOSE_BRACE { BracedPlain(text, pos + 1, code * 16 + HexValue(text[pos]).value, digits + 1); }
  }

  // ---------- the emitter's escapes ----------

  function UpperHex(d: nat): byte
    requires d < 16
  {
    if d < 10 then 48 + d else 65 + d - 10
  }

  function LowerHex(d: nat): byte
    requires d < 16
  {
    if d < 10 then 48 + d else 97 + d - 10
  }

  // What string literals and bytes literals escape alike; None for the other characters.
  function ShortEscape(c: byte): Option<byte> {
    if c == QUOTE then Some(QUOTE)
    else if c == BACKSLASH then Some(BACKSLASH)
    else if c == NEWLINE then Some(LETTER_N)
    else if c == RETURN then Some(LETTER_R)
    else if c == TAB then Some(LETTER_T)
    else if c == 0 then Some(DIGIT_0)
    else None
  }

  // \u{%X} for the other control characters; bytes from 0x80 on are copied
  function StringEscape(c: byte): seq<byte> {
    if ShortEscape(c).Some? then [BACKSLASH, ShortEscape(c).value]
    else if c < 0x20 || c == 0x7F then
      [BACKSLASH, LETTER_U, OPEN_BRACE]
      + (if c < 16 then [UpperHex(c)] else [UpperHex(c / 16), UpperHex(c % 16)]) + [CLOSE_BRACE]
    else [c]
  }

  // \x%02x for everything that is not printable
  function BytesEscape(c: byte): seq<byte> {
    if ShortEscape(c).Some? then [BACKSLASH, ShortEscape(c).value]
    else if 0x20 <= c < 0x7F then [c]
    else [BACKSLASH, LETTER_X, LowerHex(c / 16), LowerHex(c % 16)]
  }

  function Escaped(contents: seq<byte>, isBytes: bool): seq<byte> {
    if contents == [] then []
    else
      var last := contents[|contents| - 1];
      Escaped(contents[..|contents| - 1], isBytes) + if isBytes then BytesEscape(last) else StringEscape(last)
  }

  function LiteralText(contents: seq<byte>, isBytes: bool): seq<byte> {
    (if isBytes then [LETTER_B, QUOTE] else [QUOTE]) + Escaped(contents, isBytes) + [QUOTE]
  }

  lemma EscapedNext(start: seq<byte>, contents: seq<byte>, i: nat, isBytes: bool)
    requires i < |contents|
    ensures start + Escaped(contents[..i + 1], isBytes) ==
            start + Escaped(contents[..i], isBytes)
            + if isBytes then BytesEscape(contents[i]) else StringEscape(contents[i])
  {
    hide BytesEscape, StringEscape;
    assert contents[..i + 1][..i] == contents[..i];
  }

  lemma NothingEscaped(start: seq<byte>, contents: seq<byte>, isBytes: bool)
    ensures start + Escaped(contents[..0], isBytes) == start
  {
  }

  method EmitLiteral(contents: seq<byte>, isBytes: bool) returns (out: seq<byte>)
    ensures out == LiteralText(contents, isBytes)
  {
    hide BytesEscape, StringEscape, Escaped;
    var start := if isBytes then [LETTER_B, QUOTE] else [QUOTE];
    out := start;
    NothingEscaped(start, contents, isBytes);
    for i := 0 to |contents|
      invariant out == start + Escaped(contents[..i], isBytes)
    {
      EscapedNext(start, contents, i, isBytes);
      out := out + if isBytes then BytesEscape(contents[i]) else StringEscape(contents[i]);
    }
    assert contents[..|contents|] == contents;
    out := out + [QUOTE];
  }

  // ---------- the scanner's reading of a literal ----------

  // Contents and the position after the literal; or the position of a backslash whose escape is not one.
  datatype Body = Contents(bytes: seq<byte>, end: nat) | BadEscape(at: nat)

  predicate IsNewline(c: byte) { c == NEWLINE || c == RETURN }

  // One step over a character that is copied: a carriage return takes a following newline with it.
  function CharEnd(text: seq<byte>, pos: nat): (e: nat)
    requires pos < |text|
    ensures pos < e <= |text|
  {
    if text[pos] == RETURN && pos + 1 < |text| && text[pos + 1] == NEWLINE then pos + 2 else pos + 1
  }

  // The rest of a literal from pos on, after buf. The end of the text ends the literal like a quote.
  function ReadBody(text: seq<byte>, pos: nat, quote: byte, buf: seq<byte>): (r: Body)
    requires pos <= |text|
    ensures r.Contents? ==> pos <= r.end <= |text|
    ensures r.BadEscape? ==> pos <= r.at < |text|
    decreases |text| - pos
  {
    var c := CharAt(text, pos);
    if c == 0 then Contents(buf, pos)
    else if c == quote then
      if CharAt(text, pos + 1) == quote then ReadBody(text, pos + 2, quote, buf + [quote]) else Contents(buf, pos + 1)
    else if c == BACKSLASH then
      var e := Unescape(text, pos + 1);
      if e.Bad? then BadEscape(pos) else ReadBody(text, pos + 1 + e.consumed, quote, buf + e.out)
    else if IsNewline(c) then ReadBody(text, CharEnd(text, pos), quote, buf + [NEWLINE])
    else ReadBody(text, pos + 1, quote, buf + [c])
  }

  // ---------- round trip ----------

  lemma HexRead(d: nat)
    requires d < 16
    ensures HexValue(UpperHex(d)) == Some(d) && HexValue(LowerHex(d)) == Some(d)
    ensures UpperHex(d) != CLOSE_BRACE
  {
  }

  // Every escape the emitter writes for a byte is read back as that byte.
  lemma EscapeRead(text: seq<byte>, pos: nat, c: byte, isBytes: bool, buf: seq<byte>)
    requires Here(text, pos, if isBytes then BytesEscape(c) else StringEscape(c))
    ensures var n := |if isBytes then BytesEscape(c) else StringEscape(c)|;
            pos + n <= |text| && ReadBody(text, pos, QUOTE, buf) == ReadBody(text, pos + n, QUOTE, buf + [c])
  {
    hide Here, ReadBody, Unescape, BracedHex, UpperHex, LowerHex, HexValue, BytesEscape, StringEscape;
    if ShortEscape(c).Some? {
      ShortRead(text, pos, c, isBytes, buf);
    } else if isBytes {
      if 0x20 <= c < 0x7F { PlainRead(text, pos, c, isBytes, buf); } else { HexEscapeRead(text, pos, c, buf); }
    } else {
      if c < 0x20 || c == 0x7F { BracedRead(text, pos, c, buf); } else { PlainRead(text, pos, c, isBytes, buf); }
    }
  }

  lemma ShortRead(text: seq<byte>, pos: nat, c: byte, isBytes: bool, buf: seq<byte>)
    requires ShortEscape(c).Some? && Here(text, pos, if isBytes then BytesEscape(c) else StringEscape(c))
    ensures |if isBytes then BytesEscape(c) else StringEscape(c)| == 2 && pos + 2 <= |text|
    ensures ReadBody(text, pos, QUOTE, buf) == ReadBody(text, pos + 2, QUOTE, buf + [c])
  {
    hide Here, BracedHex;
    var part := if isBytes then BytesEscape(c) else StringEscape(c);
    HereAt(text, pos, part, 0);
    HereAt(text, pos, part, 1);
    assert Unescape(text, pos + 1) == Good([c], 1);
  }

  lemma PlainRead(text: seq<byte>, pos: nat, c: byte, isBytes: bool, buf: seq<byte>)
    requires ShortEscape(c).None? && (if isBytes then 0x20 <= c < 0x7F else c >= 0x20 && c != 0x7F)
    requires Here(text, pos, if isBytes then BytesEscape(c) else StringEscape(c))
    ensures |if isBytes then BytesEscape(c) else StringEscape(c)| == 1 && pos + 1 <= |text|
    ensures ReadBody(text, pos, QUOTE, buf) == ReadBody(text, pos + 1, QUOTE, buf + [c])
  {
    hide Here, BracedHex, Unescape;
    HereAt(text, pos, if isBytes then BytesEscape(c) else StringEscape(c), 0);
  }

  lemma HexEscapeRead(text: seq<byte>, pos: nat, c: byte, buf: seq<byte>)
    requires ShortEscape(c).None? && !(0x20 <= c < 0x7F) && Here(text, pos, BytesEscape(c))
    ensures |BytesEscape(c)| == 4 && pos + 4 <= |text|
    ensures ReadBody(text, pos, QUOTE, buf) == ReadBody(text, pos + 4, QUOTE, buf + [c])
  {
    hide Here, BracedHex, UpperHex, LowerHex, HexValue;
    HereAt(text, pos, BytesEscape(c), 0);
    HereAt(text, pos, BytesEscape(c), 1);
    HereAt(text, pos, BytesEscape(c), 2);
    HereAt(text, pos, BytesEscape(c), 3);
    HexRead(c / 16);
    HexRead(c % 16);
    assert Unescape(text, pos + 1) == Good([c], 3);
  }

  lemma BracedRead(text: seq<byte>, pos: nat, c: byte, buf: seq<byte>)
    requires ShortEscape(c).None? && (c < 0x20 || c == 0x7F) && Here(text, pos, StringEscape(c))
    ensures pos + |StringEscape(c)| <= |text|
    ensures ReadBody(text, pos, QUOTE, buf) == ReadBody(text, pos + |StringEscape(c)|, QUOTE, buf + [c])
  {
    hide Here, UpperHex, HexValue, BracedHex;
    var part := StringEscape(c);
    HereAt(text, pos, part, 0);
    HereAt(text, pos, part, 1);
    HereAt(text, pos, part, 2);
    HereAt(text, pos, part, |part| - 1);
    var digits := if c < 16 then [UpperHex(c)] else [UpperHex(c / 16), UpperHex(c % 16)];
    assert part == [BACKSLASH, LETTER_U, OPEN_BRACE] + (digits + [CLOSE_BRACE]);
    HereParts(text, pos, [BACKSLASH, LETTER_U, OPEN_BRACE], digits + [CLOSE_BRACE]);
    BracedDigits(text, pos + 3, c);
    assert Utf8.Encode(c) == [c];
    assert Unescape(text, pos + 1) == Good([c], |part| - 1);
  }

  lemma BracedDigits(text: seq<byte>, pos: nat, c: byte)
    requires c < 0x80
    requires Here(text, pos, (if c < 16 then [UpperHex(c)] else [UpperHex(c / 16), UpperHex(c % 16)]) + [CLOSE_BRACE])
    ensures BracedHex(text, pos, 0, 0) == Some((c, pos + if c < 16 then 2 else 3))
  {
    hide Here, UpperHex, HexValue;
    var part := (if c < 16 then [UpperHex(c)] else [UpperHex(c / 16), UpperHex(c % 16)]) + [CLOSE_BRACE];
    HereAt(text, pos, part, 0);
    HereAt(text, pos, part, 1);
    HereAt(text, pos, part, |part| - 1);
    HexRead(c / 16);
    HexRead(c % 16);
    var n := |part| - 1;
    assert BracedHex(text, pos + n, c, n) == Some((c, pos + n + 1));
    if c >= 16 { assert BracedHex(text, pos + 1, c / 16, 1) == BracedHex(text, pos + 2, c, 2); }
  }

  lemma {:induction false} EscapedRead(text: seq<byte>, pos: nat, contents: seq<byte>, isBytes: bool)
    requires Here(text, pos, Escaped(contents, isBytes))
    ensures var end := pos + |Escaped(contents, isBytes)|;
            end <= |text| && ReadBody(text, pos, QUOTE, []) == ReadBody(text, end, QUOTE, contents)
    decreases |contents|
  {
    hide Here, ReadBody, BytesEscape, StringEscape;
    HereLength(text, pos, Escaped(contents, isBytes));
    if contents != [] {
      var front, last := contents[..|contents| - 1], contents[|contents| - 1];
      HereParts(text, pos, Escaped(front, isBytes), if isBytes then BytesEscape(last) else StringEscape(last));
      EscapedRead(text, pos, front, isBytes);
      EscapeRead(text, pos + |Escaped(front, isBytes)|, last, isBytes, front);
      assert front + [last] == contents;
    }
  }

  // Reading the text the emitter writes for any contents gives the contents back, and stops after the
  // closing quote, unless another quote follows it.
  lemma ContentsRead(text: seq<byte>, pos: nat, contents: seq<byte>, isBytes: bool)
    requires Here(text, pos, Escaped(contents, isBytes) + [QUOTE])
    requires CharAt(text, pos + |Escaped(contents, isBytes)| + 1) != QUOTE
    ensures pos <= |text|
    ensures ReadBody(text, pos, QUOTE, []) == Contents(contents, pos + |Escaped(contents, isBytes)| + 1)
  {
    hide Here, Escaped;
    HereParts(text, pos, Escaped(contents, isBytes), [QUOTE]);
    EscapedRead(text, pos, contents, isBytes);
    HereAt(text, pos + |Escaped(contents, isBytes)|, [QUOTE], 0);
  }

  // A literal whose closing quote is followed by another is not closed there: the pair stands for a quote.
  lemma DoubledQuoteGoesOn(text: seq<byte>, pos: nat, contents: seq<byte>, isBytes: bool)
    requires Here(text, pos, Escaped(contents, isBytes) + [QUOTE])
    requires CharAt(text, pos + |Escaped(contents, isBytes)| + 1) == QUOTE
    ensures var end := pos + |Escaped(contents, isBytes)|;
            end + 2 <= |text| && ReadBody(text, pos, QUOTE, []) == ReadBody(text, end + 2, QUOTE, contents + [QUOTE])
  {
    hide Here, Escaped;
    HereParts(text, pos, Escaped(contents, isBytes), [QUOTE]);
    EscapedRead(text, pos, contents, isBytes);
    HereAt(text, pos + |Escaped(contents, isBytes)|, [QUOTE], 0);
  }

  // A literal that the end of the text cuts off reads like one that is closed there.
  lemma CutOffReadsAsClosed(text: seq<byte>, pos: nat, contents: seq<byte>, isBytes: bool)
    requires Here(text, pos, Escaped(contents, isBytes)) && pos + |Escaped(contents, isBytes)| == |text|
    ensures ReadBody(text, pos, QUOTE, []) == Contents(contents, |text|)
  {
    hide Here, Escaped;
    EscapedRead(text, pos, contents, isBytes);
  }
}
