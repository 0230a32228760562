/** UTF-8 (sections 3 and 4 of RFC 3629). Bytes are naturals; where the source masks, shifts and joins
    disjoint bit fields, the same field is taken by division and remainder and joined by addition. */
module Utf8 {
  import opened Bits
  import opened Wrappers

  datatype Decoded = Decoded(codepoint: nat, width: nat)

  predicate IsScalar(cp: int) { 0 <= cp <= 0x10FFFF && !(0xD800 <= cp <= 0xDFFF) }

  // bebop_utf8_width_table[a >> 3]
  function Width(a: byte): nat {
    var i := a / 8;
    if i < 16 then 1
    else if i < 24 then 0
    else if i < 28 then 2
    else if i < 30 then 3
    else if i < 31 then 4
    else 0
  }

  // (b & 0xC0) == 0x80
  predicate IsContinuation(b: byte) { b / 64 == 2 }

  function Decode2(a: int, b: int): Option<Decoded>
    requires 0 <= a < 256 && 0 <= b < 256
  {
    var code := a % 32 * 64 + b % 64;
    if !IsContinuation(b) || code < 0x80 then None else Some(Decoded(code, 2))
  }

  function Decode3(a: int, b: int, c: int): Option<Decoded>
    requires 0 <= a < 256 && 0 <= b < 256 && 0 <= c < 256
  {
    var code := a % 16 * 4096 + b % 64 * 64 + c % 64;
    if !IsContinuation(b) || !IsContinuation(c) || code < 0x800 then None
    else if 0xD800 <= code <= 0xDFFF then None
    else Some(Decoded(code, 3))
  }

  function Decode4(a: int, b: int, c: int, d: int): Option<Decoded>
    requires 0 <= a < 256 && 0 <= b < 256 && 0 <= c < 256 && 0 <= d < 256
  {
    var code := a % 8 * 262144 + b % 64 * 4096 + c % 64 * 64 + d % 64;
    if !IsContinuation(b) || !IsContinuation(c) || !IsContinuation(d) then None
    else if code < 0x10000 || code > 0x10FFFF then None
    else Some(Decoded(code, 4))
  }

  function Decode(s: seq<byte>): Option<Decoded> {
    if s == [] then None
    else if s[0] < 0x80 then Some(Decoded(s[0], 1))
    else
      var width := Width(s[0]);
      if width == 0 || width > |s| then None
      else if width == 2 then Decode2(s[0], s[1])
      else if width == 3 then Decode3(s[0], s[1], s[2])
      else Decode4(s[0], s[1], s[2], s[3])
  }

  // The bytes written for a code point, none when it is not a scalar value.
  function Encode(cp: int): seq<byte> {
    if !IsScalar(cp) then []
    else if cp < 0x80 then [cp]
    else if cp < 0x800 then [cp / 64 + 0xC0, cp % 64 + 0x80]
    else if cp < 0x10000 then [cp / 4096 + 0xE0, cp / 64 % 64 + 0x80, cp % 64 + 0x80]
    else [cp / 262144 + 0xF0, cp / 4096 % 64 + 0x80, cp / 64 % 64 + 0x80, cp % 64 + 0x80]
  }

  lemma Joined4(x: nat, y: nat, z: nat, w: nat, cp: nat)
    requires y < 64 && z < 64 && w < 64
    ensures cp == x * 262144 + y * 4096 + z * 64 + w <==>
              cp / 262144 == x && cp / 4096 % 64 == y && cp / 64 % 64 == z && cp % 64 == w
  {
    assert cp / 4096 == cp / 64 / 64 && cp / 262144 == cp / 64 / 4096;
    Joined3(x, y, z, cp / 64);
  }

  lemma Joined3(y: nat, z: nat, w: nat, cp: nat)
    requires z < 64 && w < 64
    ensures cp == y * 4096 + z * 64 + w <==> cp / 4096 == y && cp / 64 % 64 == z && cp % 64 == w
  {
    assert cp / 4096 == cp / 64 / 64;
  }

  lemma DecodeEncode2(cp: int)
    requires 0x80 <= cp < 0x800
    ensures |Encode(cp)| == 2 && Width(Encode(cp)[0]) == 2 && Encode(cp)[0] >= 0x80
    ensures Decode2(Encode(cp)[0], Encode(cp)[1]) == Some(Decoded(cp, 2))
  {
  }

  lemma DecodeEncode3(cp: int)
    requires 0x800 <= cp < 0x10000 && IsScalar(cp)
    ensures |Encode(cp)| == 3 && Width(Encode(cp)[0]) == 3 && Encode(cp)[0] >= 0x80
    ensures Decode3(Encode(cp)[0], Encode(cp)[1], Encode(cp)[2]) == Some(Decoded(cp, 3))
  {
    Joined3(cp / 4096, cp / 64 % 64, cp % 64, cp);
  }

  lemma DecodeEncode4(cp: int)
    requires 0x10000 <= cp <= 0x10FFFF
    ensures |Encode(cp)| == 4 && Width(Encode(cp)[0]) == 4 && Encode(cp)[0] >= 0x80
    ensures Decode4(Encode(cp)[0], Encode(cp)[1], Encode(cp)[2], Encode(cp)[3]) == Some(Decoded(cp, 4))
  {
    Joined4(cp / 262144, cp / 4096 % 64, cp / 64 % 64, cp % 64, cp);
  }

  // What is written for a scalar value is read back as that value, whatever follows.
  lemma DecodeEncode(cp: int, rest: seq<byte>)
    requires IsScalar(cp)
    ensures Encode(cp) != [] && Decode(Encode(cp) + rest) == Some(Decoded(cp, |Encode(cp)|))
  {
    hide Decode2, Decode3, Decode4, Width;
    if 0x80 <= cp < 0x800 { DecodeEncode2(cp); }
    if 0x800 <= cp < 0x10000 { DecodeEncode3(cp); }
    if 0x10000 <= cp { DecodeEncode4(cp); }
  }

  lemma EncodeDecode2(a: byte, b: byte)
    requires Width(a) == 2 && Decode2(a, b).Some?
    ensures var cp := Decode2(a, b).value.codepoint; IsScalar(cp) && Encode(cp) == [a, b]
  {
  }

  lemma EncodeDecode3(a: byte, b: byte, c: byte)
    requires Width(a) == 3 && Decode3(a, b, c).Some?
    ensures var cp := Decode3(a, b, c).value.codepoint; IsScalar(cp) && Encode(cp) == [a, b, c]
  {
    var cp := Decode3(a, b, c).value.codepoint;
    Joined3(a % 16, b % 64, c % 64, cp);
  }

  lemma EncodeDecode4(a: byte, b: byte, c: byte, d: byte)
    requires Width(a) == 4 && Decode4(a, b, c, d).Some?
    ensures var cp := Decode4(a, b, c, d).value.codepoint; IsScalar(cp) && Encode(cp) == [a, b, c, d]
  {
    var cp := Decode4(a, b, c, d).value.codepoint;
    Joined4(a % 8, b % 64, c % 64, d % 64, cp);
  }

  // Whatever is read was a scalar value, written exactly as it is encoded.
  lemma EncodeDecode(s: seq<byte>)
    ensures var r := Decode(s);
            r.Some? ==> IsScalar(r.value.codepoint) && 0 < r.value.width <= |s|
                        && Encode(r.value.codepoint) == s[..r.value.width]
  {
    hide Decode2, Decode3, Decode4, Width;
    if Decode(s).Some? {
      if s[0] < 0x80 {
        assert s[..1] == [s[0]];
      } else {
        WidthRange(s[0]);
        Widths(s);
        match Width(s[0])
        case 2 => EncodeDecode2(s[0], s[1]); assert s[..2] == [s[0], s[1]];
        case 3 => EncodeDecode3(s[0], s[1], s[2]); assert s[..3] == [s[0], s[1], s[2]];
        case _ => EncodeDecode4(s[0], s[1], s[2], s[3]); assert s[..4] == [s[0], s[1], s[2], s[3]];
      }
    }
  }

  lemma WidthRange(a: byte)
    ensures Width(a) <= 4 && (Width(a) == 1 <==> a < 0x80)
  {
  }

  lemma Widths(s: seq<byte>)
    requires Decode(s).Some? && s[0] >= 0x80
    ensures 2 <= Width(s[0]) <= |s| && Decode(s).value.width == Width(s[0])
  {
  }

  // ---------- validity ----------

  function EncodeAll(cps: seq<int>): seq<byte> {
    if cps == [] then [] else Encode(cps[0]) + EncodeAll(cps[1..])
  }

  ghost predicate AllScalar(cps: seq<int>) { forall i :: 0 <= i < |cps| ==> IsScalar(cps[i]) }

  // s is a concatenation of encoded scalar values.
  ghost predicate IsUtf8(s: seq<byte>) {
    exists cps :: AllScalar(cps) && EncodeAll(cps) == s
  }

  lemma Utf8Step(s: seq<byte>)
    ensures s == [] ==> IsUtf8(s)
    ensures s != [] ==>
              (IsUtf8(s) <==> Decode(s).Some? && Decode(s).value.width <= |s| && IsUtf8(s[Decode(s).value.width..]))
  {
    hide Decode, Encode, IsScalar;
    if s == [] {
      assert EncodeAll([]) == s && AllScalar([]);
    } else {
      EncodeDecode(s);
      var r := Decode(s);
      if IsUtf8(s) { FirstDecodes(s); }
      if r.Some? && IsUtf8(s[r.value.width..]) {
        var cps: seq<int> :| AllScalar(cps) && EncodeAll(cps) == s[r.value.width..];
        var all := [r.value.codepoint] + cps;
        assert all[1..] == cps;
        assert EncodeAll(all) == s[..r.value.width] + s[r.value.width..] == s;
        assert AllScalar(all);
      }
    }
  }

  lemma FirstDecodes(s: seq<byte>)
    requires IsUtf8(s) && s != []
    ensures Decode(s).Some? && Decode(s).value.width <= |s| && IsUtf8(s[Decode(s).value.width..])
  {
    hide Decode, Encode, IsScalar;
    var cps :| AllScalar(cps) && EncodeAll(cps) == s;
    DecodeEncode(cps[0], EncodeAll(cps[1..]));
    assert s[|Encode(cps[0])|..] == EncodeAll(cps[1..]);
    assert AllScalar(cps[1..]);
  }

  // The validity loop accepts exactly the concatenations of encodings.
  method IsValid(s: seq<byte>) returns (valid: bool)
    ensures valid <==> IsUtf8(s)
  {
    hide Decode, IsUtf8;
    var pos := 0;
    while pos < |s|
      invariant pos <= |s| && (IsUtf8(s) <==> IsUtf8(s[pos..]))
    {
      EncodeDecode(s[pos..]);
      Utf8Step(s[pos..]);
      var r := Decode(s[pos..]);
      if r.None? {
        return false;
      }
      assert s[pos..][r.value.width..] == s[pos + r.value.width..];
      pos := pos + r.value.width;
    }
    Utf8Step(s[pos..]);
    return true;
  }
}
