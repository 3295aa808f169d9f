/** The escapes of section 7 of RFC 8259 that name a code unit by its hexadecimal digits, and the UTF-8
    (section 3 of RFC 3629) they are turned into. */
module JsonUtf8 {
  import opened Json

  /** What an escape is decoded to, and how many bytes of the literal it takes; no bytes taken is an error. */
  datatype Piece = Piece(bytes: seq<byte>, width: nat) {
    predicate Ok() {
      width > 0
    }
  }

  const BAD: Piece := Piece([], 0)

  // ----- hexadecimal digits

  predicate IsHex(b: byte) {
    48 <= b <= 57 || 65 <= b <= 70 || 97 <= b <= 102
  }

  function HexValue(b: byte): (d: nat)
    requires IsHex(b)
    ensures d < 16
  {
    if b <= 57 then b - 48 else if b <= 70 then b - 55 else b - 87
  }

  /** The number that the `n` bytes at `at` spell, -1 if they are not all digits. */
  function Hex(c: seq<byte>, at: nat, n: nat): (h: int)
    requires at + n <= |c|
    ensures h >= -1
  {
    if n == 0 then 0
    else if Hex(c, at, n - 1) < 0 || !IsHex(c[at + n - 1]) then -1
    else 16 * Hex(c, at, n - 1) + HexValue(c[at + n - 1])
  }

  /** What `parse_hex4` makes of the four bytes at `at`: 0 if they are not all digits. */
  function Hex4(c: seq<byte>, at: nat): nat
    requires at + 4 <= |c|
  {
    if Hex(c, at, 4) < 0 then 0 else Hex(c, at, 4)
  }

  lemma HexBound(c: seq<byte>, at: nat)
    requires at + 4 <= |c|
    ensures Hex4(c, at) < 0x1_0000
  {
    assert Hex(c, at, 1) < 16;
    assert Hex(c, at, 2) < 256;
    assert Hex(c, at, 3) < 4096;
  }

  lemma {:induction false} NotHex(c: seq<byte>, at: nat, i: nat, n: nat)
    requires i < n && at + n <= |c| && !IsHex(c[at + i])
    ensures Hex(c, at, n) < 0
    decreases n
  {
    if i < n - 1 {
      NotHex(c, at, i, n - 1);
    }
  }

  method ParseHex4(c: seq<byte>, at: nat) returns (h: nat)
    requires at + 4 <= |c|
    ensures h == Hex4(c, at)
  {
    h := 0;
    var i := 0;
    while i < 4
      invariant 0 <= i <= 4 && Hex(c, at, i) >= 0
      invariant h == if i < 4 then 16 * Hex(c, at, i) else Hex(c, at, i)
    {
      if IsHex(c[at + i]) {
        h := h + HexValue(c[at + i]);
      } else {
        NotHex(c, at, i, 4);
        return 0;
      }
      if i < 3 {
        h := h * 16;
      }
      i := i + 1;
    }
  }

  // ----- UTF-8

  predicate IsScalar(cp: nat) {
    cp < 0xD800 || 0xE000 <= cp <= 0x10_FFFF
  }

  function Utf8Length(cp: nat): nat {
    if cp < 0x80 then 1 else if cp < 0x800 then 2 else if cp < 0x1_0000 then 3 else 4
  }

  function Mark(length: nat): nat {
    if length == 2 then 0xC0 else if length == 3 then 0xE0 else if length == 4 then 0xF0 else 0
  }

  /** `left` in `length` bytes, six bits in each but the first. */
  function Encode(left: nat, length: nat, mark: nat): (r: seq<byte>)
    requires length > 0
    ensures |r| == length
  {
    if length == 1 then [(mark + left) % 256] else Encode(left / 64, length - 1, mark) + [0x80 + left % 64]
  }

  function Utf8(cp: nat): (r: seq<byte>)
    ensures 1 <= |r| <= 4
  {
    Encode(cp, Utf8Length(cp), Mark(Utf8Length(cp)))
  }

  lemma EncodeFirst(left: nat, mark: nat)
    requires mark + left < 256
    ensures Encode(left, 1, mark) == [mark + left]
  {
  }

  lemma EncodeStep(left: nat, length: nat, mark: nat)
    requires length > 1
    ensures Encode(left, length, mark) == Encode(left / 64, length - 1, mark) + [0x80 + left % 64]
  {
  }

  /** The table of section 3 of RFC 3629. */
  lemma Utf8Table(cp: nat)
    requires cp <= 0x10_FFFF
    ensures cp < 0x80 ==> Utf8(cp) == [cp]
    ensures 0x80 <= cp < 0x800 ==> Utf8(cp) == [0xC0 + cp / 64, 0x80 + cp % 64]
    ensures 0x800 <= cp < 0x1_0000 ==> Utf8(cp) == [0xE0 + cp / 64 / 64, 0x80 + cp / 64 % 64, 0x80 + cp % 64]
    ensures 0x1_0000 <= cp ==>
              Utf8(cp) == [0xF0 + cp / 64 / 64 / 64, 0x80 + cp / 64 / 64 % 64, 0x80 + cp / 64 % 64, 0x80 + cp % 64]
  {
    if cp < 0x80 {
      EncodeFirst(cp, 0);
    } else if cp < 0x800 {
      EncodeStep(cp, 2, 0xC0);
      EncodeFirst(cp / 64, 0xC0);
    } else if cp < 0x1_0000 {
      EncodeStep(cp, 3, 0xE0);
      EncodeStep(cp / 64, 2, 0xE0);
      EncodeFirst(cp / 64 / 64, 0xE0);
    } else {
      EncodeStep(cp, 4, 0xF0);
      EncodeStep(cp / 64, 3, 0xF0);
      EncodeStep(cp / 64 / 64, 2, 0xF0);
      EncodeFirst(cp / 64 / 64 / 64, 0xF0);
    }
  }

  /** The code point whose UTF-8 is `s`: lead byte, continuation bytes, shortest form, no surrogates. */
  function CodePoint(s: seq<byte>): Option<nat> {
    if |s| == 1 && s[0] < 0x80 then Some(s[0])
    else if |s| == 2 && 0xC0 <= s[0] < 0xE0 && Continues(s) && 0x80 <= Two(s) then Some(Two(s))
    else if |s| == 3 && 0xE0 <= s[0] < 0xF0 && Continues(s) && 0x800 <= Three(s) && IsScalar(Three(s)) then Some(Three(s))
    else if |s| == 4 && 0xF0 <= s[0] < 0xF8 && Continues(s) && 0x1_0000 <= Four(s) <= 0x10_FFFF then Some(Four(s))
    else None
  }

  predicate Continues(s: seq<byte>) {
    forall i :: 1 <= i < |s| ==> 0x80 <= s[i] < 0xC0
  }

  /** `high` followed by the six bits of a continuation byte. */
  function More(high: nat, b: byte): nat
    requires 0x80 <= b
  {
    64 * high + (b as int - 0x80)
  }

  function Two(s: seq<byte>): nat
    requires |s| == 2 && s[0] >= 0xC0 && Continues(s)
  {
    More(s[0] as int - 0xC0, s[1])
  }

  function Three(s: seq<byte>): nat
    requires |s| == 3 && s[0] >= 0xE0 && Continues(s)
  {
    More(More(s[0] as int - 0xE0, s[1]), s[2])
  }

  function Four(s: seq<byte>): nat
    requires |s| == 4 && s[0] >= 0xF0 && Continues(s)
  {
    More(More(More(s[0] as int - 0xF0, s[1]), s[2]), s[3])
  }

  lemma SixBits(cp: nat)
    ensures More(cp / 64, 0x80 + cp % 64) == cp
  {
  }

  lemma NoMoreBits(high: nat, b: byte)
    requires 0x80 <= b < 0xC0
    ensures More(high, b) / 64 == high && 0x80 + More(high, b) % 64 == b
  {
  }

  /** The bytes that code points are given are the ones that stand for them, and nothing else does. */
  lemma Utf8IsCodePoint(cp: nat)
    requires IsScalar(cp)
    ensures CodePoint(Utf8(cp)) == Some(cp)
  {
    Utf8Table(cp);
    if cp >= 0x1_0000 {
      SixBits(cp / 64 / 64);
    }
    if cp >= 0x800 {
      SixBits(cp / 64);
    }
    SixBits(cp);
  }

  lemma CodePointIsUtf8(s: seq<byte>)
    requires CodePoint(s).Some?
    ensures IsScalar(CodePoint(s).value) && Utf8(CodePoint(s).value) == s
  {
    Utf8Table(CodePoint(s).value);
    if |s| == 2 {
      NoMoreBits(s[0] as int - 0xC0, s[1]);
    } else if |s| == 3 {
      NoMoreBits(More(s[0] as int - 0xE0, s[1]), s[2]);
      NoMoreBits(s[0] as int - 0xE0, s[1]);
    } else if |s| == 4 {
      var high := s[0] as int - 0xF0;
      NoMoreBits(More(More(high, s[1]), s[2]), s[3]);
      NoMoreBits(More(high, s[1]), s[2]);
      NoMoreBits(high, s[1]);
    }
  }

  // ----- UTF-16

  predicate IsHigh(u: nat) {
    0xD800 <= u <= 0xDBFF
  }

  predicate IsLow(u: nat) {
    0xDC00 <= u <= 0xDFFF
  }

  function Paired(high: nat, low: nat): (cp: nat)
    requires IsHigh(high) && IsLow(low)
    ensures 0x1_0000 <= cp <= 0x10_FFFF
  {
    0x1_0000 + (high - 0xD800) * 0x400 + (low - 0xDC00)
  }

  /** What the literal at `p` of a string that ends at `end` stands for: one code unit, or two that
      are a pair; a lone half of a pair is an error. */
  function Utf16(c: seq<byte>, p: nat, end: nat): (r: Piece)
    requires p <= end < |c|
    ensures |r.bytes| <= 4 && p + r.width <= end
    ensures r == BAD || r.width == 6 || r.width == 12
  {
    if end - p < 6 then BAD
    else
      var first := Hex4(c, p + 2);
      if IsLow(first) then BAD
      else if IsHigh(first) then
        if end - (p + 6) < 6 || c[p + 6] != BACKSLASH || c[p + 7] != 117 then BAD
        else
          var second := Hex4(c, p + 8);
          if !IsLow(second) then BAD else Piece(Utf8(Paired(first, second)), 12)
      else
        HexBound(c, p + 2);
        Piece(Utf8(first), 6)
  }

  /** Writes the UTF-8 of `cp`, last byte first. */
  method EncodeUtf8(cp: nat, out: array<byte>, at: nat) returns (n: nat)
    requires at + |Utf8(cp)| <= out.Length
    modifies out
    ensures n == |Utf8(cp)| && out[..at + n] == old(out[..at]) + Utf8(cp)
  {
    n := Utf8Length(cp);
    var mark := Mark(n);
    var left := cp;
    var position := n - 1;
    while position > 0
      invariant 0 <= position < n && out[..at] == old(out[..at])
      invariant Utf8(cp) == Encode(left, position + 1, mark) + out[at + position + 1..at + n]
    {
      out[at + position] := 0x80 + left % 64;
      left := left / 64;
      position := position - 1;
    }
    out[at] := (mark + left) % 256;
  }

  method Utf16ToUtf8(c: seq<byte>, p: nat, end: nat, out: array<byte>, at: nat) returns (width: nat, n: nat)
    requires p <= end < |c|
    requires at + |Utf16(c, p, end).bytes| <= out.Length
    modifies out
    ensures width == Utf16(c, p, end).width && n == |Utf16(c, p, end).bytes|
    ensures out[..at + n] == old(out[..at]) + Utf16(c, p, end).bytes
  {
    width, n := 0, 0;
    if end - p < 6 {
      return;
    }
    var first := ParseHex4(c, p + 2);
    if IsLow(first) {
      return;
    }
    var cp: nat;
    if IsHigh(first) {
      if end - (p + 6) < 6 || c[p + 6] != BACKSLASH || c[p + 7] != 117 {
        return;
      }
      var second := ParseHex4(c, p + 8);
      if !IsLow(second) {
        return;
      }
      width, cp := 12, Paired(first, second);
    } else {
      HexBound(c, p + 2);
      width, cp := 6, first;
    }
    n := EncodeUtf8(cp, out, at);
  }
}
