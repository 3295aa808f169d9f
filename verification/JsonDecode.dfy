/** The two passes of the string parser: the first one measures a literal and with it the buffer, the second
    one decodes into that buffer.  The passes can take escapes apart differently, and still the buffer
    suffices. */
module JsonDecode {
  import opened Json
  import opened JsonUtf8
  import opened JsonSyntax
  import JsonGrammar

  /** How the first pass stands: the escapes it has met, and whether it is inside of one. */
  datatype Progress = Progress(escapes: nat, inside: bool)

  ghost function Measured(c: seq<byte>, start: nat, p: nat): Progress
    requires p <= |c|
  {
    if p <= start then Progress(0, false)
    else
      var before := Measured(c, start, p - 1);
      if before.inside then Progress(before.escapes, false)
      else if c[p - 1] == BACKSLASH then Progress(before.escapes + 1, true)
      else before
  }

  ghost function Escapes(c: seq<byte>, start: nat, p: nat): nat
    requires p <= |c|
  {
    Measured(c, start, p).escapes
  }

  /** The size of the buffer for a literal from `start` to the quote at `end`. */
  ghost function Allocated(c: seq<byte>, start: nat, end: nat): int
    requires end <= |c|
  {
    end - start + 1 - Escapes(c, start, end) + 1
  }

  /** The backslashes that take the byte behind them along. */
  function Pairs(raw: seq<byte>): nat {
    if raw == [] then 0
    else if raw[0] != 92 then Pairs(raw[1..])
    else if |raw| >= 2 then 1 + Pairs(raw[2..])
    else 0
  }

  lemma {:induction false} EscapesArePairs(c: seq<byte>, start: nat, p: nat, end: nat)
    requires start <= p <= end <= |c| && JsonGrammar.Enclosed(c[p..end]) && !Measured(c, start, p).inside
    ensures Escapes(c, start, end) == Escapes(c, start, p) + Pairs(c[p..end])
    decreases end - p
  {
    var raw := c[p..end];
    if raw != [] {
      if c[p] != 92 {
        assert raw[1..] == c[p + 1..end];
        EscapesArePairs(c, start, p + 1, end);
      } else {
        assert raw[2..] == c[p + 2..end];
        assert Measured(c, start, p + 1) == Progress(Escapes(c, start, p) + 1, true);
        EscapesArePairs(c, start, p + 2, end);
      }
    }
  }

  /** The buffer takes the bytes of the literal, one less for every escape, and two more. */
  lemma AllocatedIs(c: seq<byte>, start: nat, end: nat)
    requires start <= end <= |c| && JsonGrammar.Enclosed(c[start..end])
    ensures Allocated(c, start, end) == |c[start..end]| - Pairs(c[start..end]) + 2
  {
    EscapesArePairs(c, start, start, end);
  }

  /** Each escape of the first pass so far is a byte that has not been written. */
  ghost predicate Budget(c: seq<byte>, start: nat, p: nat, written: nat)
    requires p <= |c|
  {
    start <= p && written + Escapes(c, start, p) <= p - start
  }

  lemma OneByte(c: seq<byte>, start: nat, p: nat)
    requires start <= p < |c|
    ensures Escapes(c, start, p) <= Escapes(c, start, p + 1) <= Escapes(c, start, p) + 1
    ensures c[p] != BACKSLASH ==> Escapes(c, start, p + 1) == Escapes(c, start, p)
  {
  }

  lemma TwoBytes(c: seq<byte>, start: nat, p: nat)
    requires start <= p && p + 2 <= |c|
    ensures Escapes(c, start, p + 2) <= Escapes(c, start, p) + 1
  {
    OneByte(c, start, p);
    OneByte(c, start, p + 1);
    assert Measured(c, start, p + 1).inside || Escapes(c, start, p + 1) == Escapes(c, start, p);
  }

  lemma FourDigits(c: seq<byte>, start: nat, p: nat)
    requires start <= p && p + 4 <= |c| && Hex4(c, p) != 0
    ensures Escapes(c, start, p + 4) == Escapes(c, start, p)
  {
    assert Hex(c, p, 4) > 0 && Hex(c, p, 3) >= 0 && Hex(c, p, 2) >= 0 && Hex(c, p, 1) >= 0;
    OneByte(c, start, p);
    OneByte(c, start, p + 1);
    OneByte(c, start, p + 2);
    OneByte(c, start, p + 3);
  }

  lemma LiteralBudget(c: seq<byte>, start: nat, p: nat, end: nat, written: nat)
    requires p < end < |c| && Budget(c, start, p, written) && Utf16(c, p, end).Ok()
    ensures var piece := Utf16(c, p, end); Budget(c, start, p + piece.width, written + |piece.bytes|)
  {
    TwoBytes(c, start, p);
    if Hex4(c, p + 2) == 0 {
      TwoBytes(c, start, p + 2);
      TwoBytes(c, start, p + 4);
    } else {
      FourDigits(c, start, p + 2);
      if IsHigh(Hex4(c, p + 2)) {
        TwoBytes(c, start, p + 6);
        FourDigits(c, start, p + 8);
      } else {
        HexBound(c, p + 2);
      }
    }
  }

  lemma UnitBudget(c: seq<byte>, start: nat, p: nat, end: nat, written: nat)
    requires p < end < |c| && Budget(c, start, p, written) && Unit(c, p, end).Ok()
    ensures var piece := Unit(c, p, end);
            p + piece.width <= end + 1 && Budget(c, start, p + piece.width, written + |piece.bytes|)
  {
    if c[p] != BACKSLASH {
      OneByte(c, start, p);
    } else if c[p + 1] == 117 {
      LiteralBudget(c, start, p, end, written);
    } else {
      TwoBytes(c, start, p);
    }
  }

  lemma {:induction false} EscapesGrow(c: seq<byte>, start: nat, p: nat, q: nat)
    requires start <= p <= q <= |c|
    ensures Escapes(c, start, p) <= Escapes(c, start, q) <= Escapes(c, start, p) + (q - p)
    decreases q - p
  {
    if p < q {
      EscapesGrow(c, start, p, q - 1);
      OneByte(c, start, q - 1);
    }
  }

  lemma Room(c: seq<byte>, start: nat, p: nat, end: nat, written: nat)
    requires start <= end < |c| && p <= end + 1 && Budget(c, start, p, written)
    ensures written + 1 <= Allocated(c, start, end)
  {
    if p <= end {
      EscapesGrow(c, start, p, end);
    } else {
      OneByte(c, start, end);
    }
  }

  /** Decoded bytes and a terminator always fit the buffer that the first pass asks for. */
  lemma {:induction false} DecodeFits(c: seq<byte>, start: nat, p: nat, end: nat, sofar: seq<byte>)
    requires start <= end < |c| && p <= end + 1 && Budget(c, start, p, |sofar|) && Decode(c, p, end, sofar).Some?
    ensures |Decode(c, p, end, sofar).value| + 1 <= Allocated(c, start, end)
    decreases end - p
  {
    if p >= end {
      Room(c, start, p, end, |sofar|);
    } else {
      var piece := Unit(c, p, end);
      UnitBudget(c, start, p, end, |sofar|);
      DecodeFits(c, start, p + piece.width, end, sofar + piece.bytes);
    }
  }

  /** The first pass: finds the closing quote and counts the escapes. */
  method Measure(c: seq<byte>, start: nat) returns (end: nat, skipped: nat, ok: bool)
    requires start <= |c|
    ensures ok <==> FindEnd(c, start).Some?
    ensures ok ==> start <= end < |c| && FindEnd(c, start) == Some(end) && skipped == Escapes(c, start, end)
  {
    end, skipped := start, 0;
    while end < |c| && c[end] != QUOTE
      invariant start <= end <= |c| && FindEnd(c, start) == FindEnd(c, end)
      invariant Measured(c, start, end) == Progress(skipped, false)
      decreases |c| - end
    {
      if c[end] == BACKSLASH {
        if end + 1 >= |c| {
          return end, skipped, false;
        }
        assert Measured(c, start, end + 1) == Progress(skipped + 1, true);
        skipped := skipped + 1;
        end := end + 1;
      }
      end := end + 1;
    }
    ok := end < |c|;
  }

  /** Decodes what is at `p` to `out + at`; `width` 0 is an error. */
  method DecodeUnit(c: seq<byte>, p: nat, end: nat, out: array<byte>, at: nat) returns (width: nat, n: nat)
    requires p < end < |c| && at < out.Length
    requires at + |Unit(c, p, end).bytes| < out.Length
    modifies out
    ensures width == Unit(c, p, end).width && n == |Unit(c, p, end).bytes|
    ensures out[..at + n] == old(out[..at]) + Unit(c, p, end).bytes
  {
    if c[p] != BACKSLASH {
      out[at] := c[p];
      return 1, 1;
    }
    if c[p + 1] == 117 {
      width, n := Utf16ToUtf8(c, p, end, out, at);
    } else if SimpleEscape(c[p + 1]).Some? {
      out[at] := SimpleEscape(c[p + 1]).value;
      return 2, 1;
    } else {
      return 0, 0;
    }
  }

  /** The second pass: decodes the literal and terminates the result; `p` is where it stopped. */
  method DecodeLiteral(c: seq<byte>, start: nat, end: nat, out: array<byte>) returns (p: nat, n: nat, ok: bool)
    requires start <= end < |c| && out.Length == Allocated(c, start, end)
    modifies out
    ensures p <= |c|
    ensures ok <==> Decode(c, start, end, []).Some?
    ensures ok ==> n < out.Length && Decode(c, start, end, []).value == out[..n] && out[n] == 0
  {
    p, n := start, 0;
    Room(c, start, p, end, n);
    while p < end
      invariant start <= p <= end + 1 && Budget(c, start, p, n) && n < out.Length
      invariant Decode(c, start, end, []) == Decode(c, p, end, out[..n])
      decreases end - p
    {
      if Unit(c, p, end).Ok() {
        var piece := Unit(c, p, end);
        UnitBudget(c, start, p, end, n);
        Room(c, start, p + piece.width, end, n + |piece.bytes|);
      }
      var width, k := DecodeUnit(c, p, end, out, n);
      if width == 0 {
        return p, n, false;
      }
      p, n := p + width, n + k;
    }
    out[n] := 0;
    ok := true;
  }
}
