/** The string parser reads exactly the string literals of the grammar. */
module JsonLiteral {
  import opened Json
  import opened JsonUtf8
  import opened JsonSyntax
  import opened JsonGrammar
  import opened JsonPlaces

  // ----- the closing quote

  /** The closing quote is the first one that no backslash takes along. */
  lemma {:induction false} FindEndIs(c: seq<byte>, at: nat, end: nat)
    requires at <= end < |c|
    ensures FindEnd(c, at) == Some(end) <==> c[end] == 34 && Enclosed(c[at..end])
    decreases end - at
  {
    var raw := c[at..end];
    if at < end {
      assert raw[0] == c[at];
      if c[at] != QUOTE && c[at] != BACKSLASH {
        assert raw[1..] == c[at + 1..end];
        FindEndIs(c, at + 1, end);
      } else if c[at] == BACKSLASH && at + 2 <= end {
        assert raw[2..] == c[at + 2..end];
        FindEndIs(c, at + 2, end);
      }
    }
  }

  // ----- digits

  lemma DigitIs(b: byte, v: nat)
    requires IsDigit(b, v)
    ensures IsHex(b) && HexValue(b) == v
  {
  }

  lemma DigitFound(b: byte)
    ensures IsHex(b) == !NoDigit(b)
    ensures IsHex(b) ==> IsDigit(b, HexValue(b))
  {
  }

  lemma Digits4(u: nat)
    requires u < 0x1_0000
    ensures u == 4096 * (u / 0x1000) + 256 * (u / 0x100 % 16) + 16 * (u / 0x10 % 16) + u % 16
  {
    assert u == 16 * (u / 0x10) + u % 16;
    assert u / 0x10 == 16 * (u / 0x100) + u / 0x10 % 16;
    assert u / 0x100 == 16 * (u / 0x1000) + u / 0x100 % 16;
  }

  /** Four digits spell the number that the parser reads. */
  lemma SpellsHex4(c: seq<byte>, at: nat, u: nat)
    requires at + 4 <= |c| && Spells(c[at..at + 4], u)
    ensures Hex4(c, at) == u
  {
    var d := c[at..at + 4];
    DigitIs(d[0], u / 0x1000);
    DigitIs(d[1], u / 0x100 % 16);
    DigitIs(d[2], u / 0x10 % 16);
    DigitIs(d[3], u % 16);
    HexIs(c, at);
    Digits4(u);
    hide HexValue, IsHex, Hex4, IsDigit;
  }

  lemma NoDigitHex4(c: seq<byte>, at: nat)
    requires at + 4 <= |c|
    requires NoDigit(c[at]) || NoDigit(c[at + 1]) || NoDigit(c[at + 2]) || NoDigit(c[at + 3])
    ensures Hex4(c, at) == 0
  {
    var i := if NoDigit(c[at]) then 0 else if NoDigit(c[at + 1]) then 1 else if NoDigit(c[at + 2]) then 2 else 3;
    DigitFound(c[at + i]);
    NotHex(c, at, i, 4);
  }

  lemma Nibbles(d0: nat, d1: nat, d2: nat, d3: nat)
    requires d0 < 16 && d1 < 16 && d2 < 16 && d3 < 16
    ensures var u := 4096 * d0 + 256 * d1 + 16 * d2 + d3;
            u < 0x1_0000 && u / 0x1000 == d0 && u / 0x100 % 16 == d1 && u / 0x10 % 16 == d2 && u % 16 == d3
  {
    var u := 4096 * d0 + 256 * d1 + 16 * d2 + d3;
    assert u / 0x10 == 256 * d0 + 16 * d1 + d2;
    assert u / 0x100 == 16 * d0 + d1;
  }

  lemma HexIs(c: seq<byte>, at: nat)
    requires at + 4 <= |c| && IsHex(c[at]) && IsHex(c[at + 1]) && IsHex(c[at + 2]) && IsHex(c[at + 3])
    ensures Hex4(c, at) == 4096 * HexValue(c[at]) + 256 * HexValue(c[at + 1]) + 16 * HexValue(c[at + 2]) + HexValue(c[at + 3])
  {
    hide HexValue, IsHex;
    var d0, d1, d2 := HexValue(c[at]), HexValue(c[at + 1]), HexValue(c[at + 2]);
    assert Hex(c, at, 1) == d0;
    assert Hex(c, at, 2) == 16 * d0 + d1;
    assert Hex(c, at, 3) == 256 * d0 + 16 * d1 + d2;
  }

  lemma Hex4Spells(c: seq<byte>, at: nat)
    requires at + 4 <= |c|
    requires !NoDigit(c[at]) && !NoDigit(c[at + 1]) && !NoDigit(c[at + 2]) && !NoDigit(c[at + 3])
    ensures Spells(c[at..at + 4], Hex4(c, at))
  {
    hide IsDigit, IsHex, HexValue, Hex4, NoDigit;
    DigitFound(c[at]);
    DigitFound(c[at + 1]);
    DigitFound(c[at + 2]);
    DigitFound(c[at + 3]);
    HexIs(c, at);
    Nibbles(HexValue(c[at]), HexValue(c[at + 1]), HexValue(c[at + 2]), HexValue(c[at + 3]));
  }

  // ----- one part

  lemma DigitsStand(c: seq<byte>, at: nat, head: seq<byte>, digits: seq<byte>)
    requires Stands(c, at, head + digits) && |digits| == 4
    ensures at + |head| + 4 <= |c| && c[at + |head|..at + |head| + 4] == digits
  {
    StandsConcat(c, at, head, digits);
    StandsSlice(c, at + |head|, digits);
  }

  /** The escape of a code point outside of the surrogates, in digits of either case, is decoded in six bytes to
      what stands for that code point. */
  lemma UnicodeDecodes(c: seq<byte>, p: nat, end: nat, digits: seq<byte>, cp: nat)
    requires Spells(digits, cp) && !(0xD800 <= cp <= 0xDFFF) && Stands(c, p, [92, 117] + digits) && p + 6 <= end < |c|
    ensures Unit(c, p, end) == Piece(Utf8(cp), 6) && CodePoint(Unit(c, p, end).bytes) == Some(cp)
  {
    DigitsStand(c, p, [92, 117], digits);
    ByteAt(c, p, [92, 117] + digits, 0);
    ByteAt(c, p, [92, 117] + digits, 1);
    SpellsHex4(c, p + 2, cp);
    Utf8IsCodePoint(cp);
  }

  lemma PairStands(c: seq<byte>, p: nat, high: seq<byte>, low: seq<byte>)
    requires |high| == 4 && |low| == 4 && Stands(c, p, [92, 117] + high + [92, 117] + low)
    ensures p + 12 <= |c| && c[p] == 92 && c[p + 1] == 117 && c[p + 6] == 92 && c[p + 7] == 117
    ensures c[p + 2..p + 6] == high && c[p + 8..p + 12] == low
  {
    hide Stands;
    var head := [92, 117] + high;
    StandsConcat(c, p, head + [92, 117], low);
    StandsConcat(c, p, head, [92, 117]);
    DigitsStand(c, p, [92, 117], high);
    DigitsStand(c, p, head + [92, 117], low);
    ByteAt(c, p, head, 0);
    ByteAt(c, p, head, 1);
    ByteAt(c, p + 6, [92, 117], 0);
    ByteAt(c, p + 6, [92, 117], 1);
  }

  lemma PairedIs(cp: nat)
    requires 0x1_0000 <= cp <= 0x10_FFFF
    ensures var h, l := 0xD800 + (cp - 0x1_0000) / 0x400, 0xDC00 + (cp - 0x1_0000) % 0x400;
            IsHigh(h) && IsLow(l) && Paired(h, l) == cp
  {
  }

  /** The escapes of the two halves of a code point behind the first 65536 are decoded in twelve bytes to what
      stands for that code point. */
  lemma PairDecodes(c: seq<byte>, p: nat, end: nat, high: seq<byte>, low: seq<byte>, cp: nat)
    requires 0x1_0000 <= cp <= 0x10_FFFF && p + 12 <= end < |c|
    requires Spells(high, 0xD800 + (cp - 0x1_0000) / 0x400) && Spells(low, 0xDC00 + (cp - 0x1_0000) % 0x400)
    requires Stands(c, p, [92, 117] + high + [92, 117] + low)
    ensures Unit(c, p, end) == Piece(Utf8(cp), 12) && CodePoint(Unit(c, p, end).bytes) == Some(cp)
  {
    PairStands(c, p, high, low);
    var h, l := 0xD800 + (cp - 0x1_0000) / 0x400, 0xDC00 + (cp - 0x1_0000) % 0x400;
    SpellsHex4(c, p + 2, h);
    SpellsHex4(c, p + 8, l);
    Utf8IsCodePoint(cp);
    PairedIs(cp);
    hide Spells, Utf8, CodePoint, Hex4, SimpleEscape, Stands, Paired;
  }

  lemma GarbledDecodes(c: seq<byte>, p: nat, end: nat, digits: seq<byte>)
    requires Garbled(digits).Lawful() && Stands(c, p, [92, 117] + digits) && p + 6 <= end < |c|
    ensures Unit(c, p, end) == Piece([0], 6)
  {
    DigitsStand(c, p, [92, 117], digits);
    ByteAt(c, p, [92, 117] + digits, 0);
    ByteAt(c, p, [92, 117] + digits, 1);
    assert c[p + 2] == digits[0] && c[p + 3] == digits[1] && c[p + 4] == digits[2] && c[p + 5] == digits[3];
    NoDigitHex4(c, p + 2);
    Utf8Table(0);
  }

  /** A part is decoded to its meaning. */
  lemma PartDecodes(c: seq<byte>, p: nat, end: nat, part: Part)
    requires part.Lawful() && Stands(c, p, part.Spelled()) && p < end < |c|
    requires p + |part.Spelled()| <= end || (part.Short? && p + 2 == end + 1)
    ensures Unit(c, p, end) == Piece(part.Meaning(), |part.Spelled()|)
  {
    ByteAt(c, p, part.Spelled(), 0);
    match part
    case Plain(_) =>
    case Short(_) =>
      ByteAt(c, p, part.Spelled(), 1);
    case Unicode(digits, cp) =>
      UnicodeDecodes(c, p, end, digits, cp);
    case Pair(high, low, cp) =>
      PairDecodes(c, p, end, high, low, cp);
    case Garbled(digits) =>
      GarbledDecodes(c, p, end, digits);
  }

  /** Whatever is decoded at one go is a part. */
  lemma DecodedPart(c: seq<byte>, p: nat, end: nat) returns (part: Part)
    requires p < end < |c| && Unit(c, p, end).Ok()
    ensures part.Lawful() && Stands(c, p, part.Spelled())
    ensures Unit(c, p, end) == Piece(part.Meaning(), |part.Spelled()|)
    ensures p + |part.Spelled()| <= end || (part == Short(c[end]) && p + 2 == end + 1)
  {
    if c[p] != BACKSLASH {
      part := Plain(c[p]);
      OneStands(c, p, c[p]);
    } else if c[p + 1] != 117 {
      part := Short(c[p + 1]);
      SliceStands(c, p, p + 2);
      assert c[p..p + 2] == [92, c[p + 1]];
    } else {
      part := DecodedEscape(c, p, end);
    }
  }

  lemma DecodedEscape(c: seq<byte>, p: nat, end: nat) returns (part: Part)
    requires p < end < |c| && c[p] == BACKSLASH && c[p + 1] == 117 && Utf16(c, p, end).Ok()
    ensures part.Lawful() && Stands(c, p, part.Spelled()) && p + |part.Spelled()| <= end
    ensures Unit(c, p, end) == Piece(part.Meaning(), |part.Spelled()|)
  {
    var u, digits := Hex4(c, p + 2), c[p + 2..p + 6];
    HexBound(c, p + 2);
    SliceStands(c, p, p + 6);
    assert c[p..p + 6] == [92, 117] + digits;
    if NoDigit(c[p + 2]) || NoDigit(c[p + 3]) || NoDigit(c[p + 4]) || NoDigit(c[p + 5]) {
      part := Garbled(digits);
    } else if IsHigh(u) {
      part := DecodedPair(c, p, end);
    } else {
      Hex4Spells(c, p + 2);
      part := Unicode(digits, u);
    }
    PartDecodes(c, p, end, part);
  }

  lemma Halves(u: nat, v: nat)
    requires 0xD800 <= u <= 0xDBFF && 0xDC00 <= v <= 0xDFFF
    ensures var cp := 0x1_0000 + (u - 0xD800) * 0x400 + (v - 0xDC00);
            && 0x1_0000 <= cp <= 0x10_FFFF
            && 0xD800 + (cp - 0x1_0000) / 0x400 == u && 0xDC00 + (cp - 0x1_0000) % 0x400 == v
  {
  }

  lemma PairFound(c: seq<byte>, p: nat, end: nat)
    requires p < end < |c| && Utf16(c, p, end).Ok() && IsHigh(Hex4(c, p + 2))
    ensures p + 12 <= end && c[p + 6] == 92 && c[p + 7] == 117 && IsLow(Hex4(c, p + 8))
  {
    hide Hex4;
  }

  lemma DecodedPair(c: seq<byte>, p: nat, end: nat) returns (part: Part)
    requires p < end < |c| && c[p] == BACKSLASH && c[p + 1] == 117 && Utf16(c, p, end).Ok()
    requires !NoDigit(c[p + 2]) && !NoDigit(c[p + 3]) && !NoDigit(c[p + 4]) && !NoDigit(c[p + 5])
    requires IsHigh(Hex4(c, p + 2))
    ensures part.Lawful() && Stands(c, p, part.Spelled()) && p + |part.Spelled()| <= end
  {
    PairFound(c, p, end);
    hide Utf16, Hex4, Spells, Stands;
    var u, v := Hex4(c, p + 2), Hex4(c, p + 8);
    var high, low := c[p + 2..p + 6], c[p + 8..p + 12];
    if NoDigit(c[p + 8]) || NoDigit(c[p + 9]) || NoDigit(c[p + 10]) || NoDigit(c[p + 11]) {
      NoDigitHex4(c, p + 8);
    }
    Hex4Spells(c, p + 2);
    Hex4Spells(c, p + 8);
    var cp := 0x1_0000 + (u - 0xD800) * 0x400 + (v - 0xDC00);
    Halves(u, v);
    part := Pair(high, low, cp);
    hide NoDigit;
    SliceStands(c, p, p + 12);
    assert c[p..p + 12] == [92, 117] + high + [92, 117] + low;
  }

  // ----- whole literals

  /** What is decoded from `p` on: parts up to the end, or one that takes the closing quote along. */
  predicate Covers(c: seq<byte>, p: nat, end: nat, parts: seq<Part>) {
    && AllLawful(parts) && Stands(c, p, Spelled(parts))
    && (p + |Spelled(parts)| == end
        || (p + |Spelled(parts)| == end + 1 && (parts == [] || parts[|parts| - 1] == Short(34))))
  }

  lemma {:induction false} PartsDecode(c: seq<byte>, p: nat, end: nat, parts: seq<Part>, sofar: seq<byte>)
    requires end < |c| && c[end] == 34 && Covers(c, p, end, parts)
    ensures Decode(c, p, end, sofar) == Some(sofar + Meaning(parts))
    decreases |parts|
  {
    hide Decode, Unit, Covers, Meaning, Part.Meaning, Part.Spelled, Part.Lawful;
    if parts == [] {
      NoneLeft(c, p, end);
      Nothing();
      DecodeStep(c, p, end, sofar);
      Associates(sofar, [], []);
    } else {
      CoversMore(c, p, end, parts);
      PartDecodes(c, p, end, parts[0]);
      PartsDecode(c, p + |parts[0].Spelled()|, end, parts[1..], sofar + parts[0].Meaning());
      DecodeStep(c, p, end, sofar);
      assert [parts[0]] + parts[1..] == parts;
      PartsCons(parts[0], parts[1..]);
      Associates(sofar, parts[0].Meaning(), Meaning(parts[1..]));
      SpelledSome(parts[0]);
    }
  }

  lemma NoneLeft(c: seq<byte>, p: nat, end: nat)
    requires Covers(c, p, end, [])
    ensures p >= end
  {
  }

  lemma SpelledSome(part: Part)
    ensures part.Spelled() != []
  {
  }

  lemma CoversMore(c: seq<byte>, p: nat, end: nat, parts: seq<Part>)
    requires parts != [] && end < |c| && c[end] == 34 && Covers(c, p, end, parts)
    ensures var n := |parts[0].Spelled()|;
            && parts[0].Lawful() && Stands(c, p, parts[0].Spelled()) && p < end
            && (p + n <= end || (parts[0].Short? && p + n == end + 1 && n == 2))
            && Covers(c, p + n, end, parts[1..])
  {
    StandsConcat(c, p, parts[0].Spelled(), Spelled(parts[1..]));
    if |parts| > 1 {
      LastSpelled(parts[1..]);
    }
  }

  /** The text of the parts is as long as that of the last one, at least. */
  lemma {:induction false} LastSpelled(parts: seq<Part>)
    requires parts != []
    ensures |Spelled(parts)| >= |parts[|parts| - 1].Spelled()| >= 1
    decreases |parts|
  {
    if |parts| > 1 {
      LastSpelled(parts[1..]);
    }
  }

  lemma DecodeStep(c: seq<byte>, p: nat, end: nat, sofar: seq<byte>)
    requires end < |c|
    ensures p >= end ==> Decode(c, p, end, sofar) == Some(sofar)
    ensures p < end ==>
              Decode(c, p, end, sofar)
              == var piece := Unit(c, p, end);
                 if piece.Ok() then Decode(c, p + piece.width, end, sofar + piece.bytes) else None
  {
    hide Unit;
  }

  lemma PartsCons(part: Part, rest: seq<Part>)
    ensures Spelled([part] + rest) == part.Spelled() + Spelled(rest)
    ensures Meaning([part] + rest) == part.Meaning() + Meaning(rest)
    ensures part.Lawful() && AllLawful(rest) ==> AllLawful([part] + rest)
  {
    hide Part.Lawful, Part.Spelled, Part.Meaning;
    var parts := [part] + rest;
    assert parts[0] == part && parts[1..] == rest;
  }

  lemma CoversCons(c: seq<byte>, p: nat, end: nat, part: Part, rest: seq<Part>)
    requires end < |c| && part.Lawful() && Stands(c, p, part.Spelled())
    requires var q := p + |part.Spelled()|;
             if q <= end then Covers(c, q, end, rest) && (rest == [] ==> q == end)
             else rest == [] && part == Short(34) && q == end + 1
    ensures Covers(c, p, end, [part] + rest)
  {
    PartsCons(part, rest);
    if rest == [] {
      assert part.Spelled() + Spelled(rest) == part.Spelled();
    } else {
      StandsJoin(c, p, part.Spelled(), Spelled(rest));
    }
    hide Part.Lawful, Part.Spelled, Spelled, AllLawful, Stands;
  }

  lemma Associates(a: seq<byte>, b: seq<byte>, c: seq<byte>)
    ensures a + b + c == a + (b + c) && a + [] == a
  {
  }

  lemma FirstPart(c: seq<byte>, p: nat, end: nat, sofar: seq<byte>) returns (part: Part)
    requires p < end < |c| && Decode(c, p, end, sofar).Some?
    ensures part.Lawful() && Stands(c, p, part.Spelled()) && |part.Spelled()| > 0
    ensures p + |part.Spelled()| <= end || (part == Short(c[end]) && p + |part.Spelled()| == end + 1)
    ensures Decode(c, p, end, sofar) == Decode(c, p + |part.Spelled()|, end, sofar + part.Meaning())
  {
    hide Unit, Decode, Part.Meaning, Part.Lawful, Stands;
    DecodeStep(c, p, end, sofar);
    part := DecodedPart(c, p, end);
  }

  lemma {:induction false} DecodedParts(c: seq<byte>, p: nat, end: nat, sofar: seq<byte>) returns (parts: seq<Part>)
    requires p <= end < |c| && c[end] == 34 && Decode(c, p, end, sofar).Some?
    ensures Covers(c, p, end, parts) && (parts == [] ==> p == end)
    ensures Decode(c, p, end, sofar).value == sofar + Meaning(parts)
    decreases end - p
  {
    hide *;
    Nothing();
    if p == end {
      parts := [];
      NoParts(c, p);
      DecodeStep(c, p, end, sofar);
      Associates(sofar, [], []);
    } else {
      var part := FirstPart(c, p, end, sofar);
      var q, more := p + |part.Spelled()|, sofar + part.Meaning();
      var rest: seq<Part> := [];
      if q <= end {
        rest := DecodedParts(c, q, end, more);
      } else {
        DecodeStep(c, q, end, more);
        Associates(more, [], []);
      }
      parts := [part] + rest;
      CoversCons(c, p, end, part, rest);
      PartsCons(part, rest);
      Associates(sofar, part.Meaning(), Meaning(rest));
    }
  }

  lemma NoParts(c: seq<byte>, end: nat)
    requires end <= |c|
    ensures Covers(c, end, end, [])
  {
  }

  lemma Nothing()
    ensures Spelled([]) == [] && Meaning([]) == []
  {
  }

  lemma {:induction false} CStrIs(s: seq<byte>)
    ensures CStr(s) == Before0(s)
  {
    if s != [] && s[0] != 0 {
      CStrIs(s[1..]);
    }
  }

  /** A literal of the grammar is read to its end, and decoded to what its parts mean. */
  lemma LiteralReads(c: seq<byte>, at: nat, lit: Lit)
    requires IsText(c) && lit.Lawful() && Stands(c, at, lit.Written())
    ensures at + |lit.Written()| < |c| && c[at] == 34
    ensures ParseString(c, at) == Some(Literal(Meaning(lit.parts), at + |lit.Written()|))
  {
    hide Enclosed, Spelled, Meaning, AllLawful, Part.Lawful, Stands, Decode;
    var end := at + 1 + |lit.raw|;
    StandsConcat(c, at, [34] + lit.raw, [34]);
    StandsConcat(c, at, [34], lit.raw);
    ByteAt(c, at, [34], 0);
    ByteAt(c, end, [34], 0);
    StandsSlice(c, at + 1, lit.raw);
    FindEndIs(c, at + 1, end);
    if Spelled(lit.parts) != lit.raw {
      StandsJoin(c, at + 1, lit.raw, [34]);
    }
    PartsDecode(c, at + 1, end, lit.parts, []);
    assert [] + Meaning(lit.parts) == Meaning(lit.parts);
  }

  /** What is read as a string is a literal of the grammar. */
  lemma ReadLiteral(c: seq<byte>, at: nat) returns (lit: Lit)
    requires IsText(c) && at < |c| && ParseString(c, at).Some?
    ensures lit.Lawful() && Stands(c, at, lit.Written())
    ensures ParseString(c, at) == Some(Literal(Meaning(lit.parts), at + |lit.Written()|))
  {
    hide Enclosed, Spelled, Meaning, Part.Lawful, Stands, Decode;
    var end := FindEnd(c, at + 1).value;
    FindEndIs(c, at + 1, end);
    var parts := DecodedParts(c, at + 1, end, []);
    lit := Lit(c[at + 1..end], parts);
    SliceStands(c, at + 1, end);
    RawIsSpelled(c, at + 1, end, parts);
    SliceStands(c, at, end + 1);
    assert c[at..end + 1] == lit.Written();
    assert [] + Meaning(parts) == Meaning(parts);
  }

  lemma RawIsSpelled(c: seq<byte>, p: nat, end: nat, parts: seq<Part>)
    requires p <= end < |c| && c[end] == 34 && Covers(c, p, end, parts) && (parts == [] ==> p == end)
    ensures Lit(c[p..end], parts).parts == parts
    ensures Spelled(parts) == c[p..end]
            || (parts != [] && parts[|parts| - 1] == Short(34) && Spelled(parts) == c[p..end] + [34])
  {
    hide Spelled, AllLawful, Stands, Part.Lawful;
    StandsSlice(c, p, Spelled(parts));
    Nothing();
    if p + |Spelled(parts)| == end + 1 {
      assert c[p..end + 1] == c[p..end] + [34];
    }
  }
}
