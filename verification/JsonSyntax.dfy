/** What the cJSON parser accepts and what it makes of it, as functions of the text.  A text is followed by
    its terminator, the last byte of `c`. */
module JsonSyntax {
  import opened Json
  import opened JsonUtf8

  const NESTING_LIMIT: nat := 1000

  /** The buffer `parse_number` copies to, without its terminator. */
  const NUMBER_BUFFER: nat := 63

  /** A conversion can take no more than it is given. */
  function ScanNumber(strtod: Strtod, number: seq<byte>): (r: Scan)
    ensures r.length <= |number|
  {
    var scan := strtod(number);
    if scan.length <= |number| then scan else Scan(0, [])
  }

  datatype Parsed = Parsed(value: Value, next: nat)
  datatype Literal = Literal(bytes: seq<byte>, next: nat)
  datatype Keyed = Keyed(member: Member, next: nat)

  predicate IsText(c: seq<byte>) {
    |c| > 0 && c[|c| - 1] == 0
  }

  /** `t` stands in `c` at `at`. */
  predicate Stands(c: seq<byte>, at: nat, t: seq<byte>) {
    at + |t| <= |c| && forall i: nat {:trigger Nth(t, i)} :: i < |t| ==> c[at + i] == Nth(t, i)
  }

  function Nth(t: seq<byte>, i: nat): byte
    requires i < |t|
  {
    t[i]
  }

  lemma StandsSlice(c: seq<byte>, at: nat, t: seq<byte>)
    ensures Stands(c, at, t) <==> at + |t| <= |c| && c[at..at + |t|] == t
  {
    if Stands(c, at, t) {
      forall i: nat | i < |t| ensures c[at..at + |t|][i] == t[i] {
        assert Nth(t, i) == t[i];
      }
    }
    if at + |t| <= |c| && c[at..at + |t|] == t {
      forall i: nat | i < |t| ensures c[at + i] == Nth(t, i) {
        assert c[at..at + |t|][i] == t[i];
      }
    }
  }

  // ----- blanks

  /** The end of the blanks at `at`; the terminator is one. */
  function Blanks(c: seq<byte>, at: nat): (r: nat)
    requires at <= |c|
    ensures at <= r <= |c|
    decreases |c| - at
  {
    if at < |c| && c[at] <= 32 then Blanks(c, at + 1) else at
  }

  /** Where skipping blanks stops: at the latest at the terminator. */
  function Skip(c: seq<byte>, at: nat): (r: nat)
    requires IsText(c) && at < |c|
    ensures at <= r < |c|
  {
    if Blanks(c, at) == |c| then |c| - 1 else Blanks(c, at)
  }

  // ----- string literals

  /** The closing quote, looked for from `at`; every backslash takes the byte behind it along. */
  function FindEnd(c: seq<byte>, at: nat): (r: Option<nat>)
    ensures r.Some? ==> at <= r.value < |c| && c[r.value] == QUOTE
    decreases |c| - at
  {
    if at >= |c| then None
    else if c[at] == QUOTE then Some(at)
    else if c[at] != BACKSLASH then FindEnd(c, at + 1)
    else if at + 1 >= |c| then None
    else FindEnd(c, at + 2)
  }

  function SimpleEscape(letter: byte): Option<byte> {
    if letter == 98 then Some(8)
    else if letter == 102 then Some(12)
    else if letter == 110 then Some(10)
    else if letter == 114 then Some(13)
    else if letter == 116 then Some(9)
    else if letter == QUOTE || letter == BACKSLASH || letter == 47 then Some(letter)
    else None
  }

  /** What the decoder does at `p` of a literal that ends at `end`. */
  function Unit(c: seq<byte>, p: nat, end: nat): Piece
    requires p < end < |c|
  {
    if c[p] != BACKSLASH then Piece([c[p]], 1)
    else if c[p + 1] == 117 then Utf16(c, p, end)
    else if SimpleEscape(c[p + 1]).Some? then Piece([SimpleEscape(c[p + 1]).value], 2)
    else BAD
  }

  /** `sofar` and what the literal's rest from `p` on is decoded to. */
  function Decode(c: seq<byte>, p: nat, end: nat, sofar: seq<byte>): Option<seq<byte>>
    requires end < |c|
    decreases end - p, 1
  {
    if p >= end then Some(sofar) else DecodeOn(c, p, end, sofar)
  }

  function DecodeOn(c: seq<byte>, p: nat, end: nat, sofar: seq<byte>): Option<seq<byte>>
    requires p < end < |c|
    decreases end - p, 0
  {
    var piece := Unit(c, p, end);
    if piece.Ok() then Decode(c, p + piece.width, end, sofar + piece.bytes) else None
  }

  function ParseString(c: seq<byte>, at: nat): (r: Option<Literal>)
    requires IsText(c) && at < |c|
    ensures r.Some? ==> at < r.value.next < |c|
  {
    if c[at] != QUOTE then None
    else
      match FindEnd(c, at + 1)
      case None => None
      case Some(end) =>
        match Decode(c, at + 1, end, [])
        case None => None
        case Some(bytes) => Some(Literal(bytes, end + 1))
  }

  /** The C string at the start of `s`. */
  function CStr(s: seq<byte>): Chars {
    if s == [] || s[0] == 0 then [] else [s[0]] + CStr(s[1..])
  }

  // ----- numbers

  predicate IsNumberChar(b: byte) {
    48 <= b <= 57 || b == 43 || b == 45 || b == 46 || b == 101 || b == 69
  }

  predicate StartsNumber(b: byte) {
    48 <= b <= 57 || b == 45
  }

  /** How many of at most `limit` bytes at `at` may belong to a number. */
  function NumberSpan(c: seq<byte>, at: nat, limit: nat): (n: nat)
    ensures n <= limit && (n > 0 ==> at + n <= |c|)
    decreases limit
  {
    if limit == 0 || at >= |c| || !IsNumberChar(c[at]) then 0 else 1 + NumberSpan(c, at + 1, limit - 1)
  }

  function NumberText(c: seq<byte>, at: nat): (r: seq<byte>)
    ensures |r| == NumberSpan(c, at, NUMBER_BUFFER)
  {
    var n := NumberSpan(c, at, NUMBER_BUFFER);
    if n == 0 then [] else c[at..at + n]
  }

  lemma {:induction false} SpanIsNumber(c: seq<byte>, at: nat, limit: nat, i: nat)
    requires i < NumberSpan(c, at, limit)
    ensures IsNumberChar(c[at + i])
    decreases limit
  {
    if i > 0 {
      SpanIsNumber(c, at + 1, limit - 1, i - 1);
    }
  }

  function ParseNumber(c: seq<byte>, at: nat, strtod: Strtod): (r: Option<Parsed>)
    requires IsText(c) && at < |c|
    ensures r.Some? ==> at < r.value.next < |c|
  {
    var scan := ScanNumber(strtod, NumberText(c, at));
    if scan.length == 0 then None
    else
      SpanIsNumber(c, at, NUMBER_BUFFER, scan.length - 1);
      Some(Parsed(Number(scan.token), at + scan.length))
  }

  // ----- values

  function ParseKeyword(c: seq<byte>, at: nat): (r: Option<Parsed>)
    requires IsText(c)
    ensures r.Some? ==> at < r.value.next < |c|
  {
    if Stands(c, at, NULL_TEXT) then KeywordEnds(c, at, NULL_TEXT); Some(Parsed(Null, at + 4))
    else if Stands(c, at, FALSE_TEXT) then KeywordEnds(c, at, FALSE_TEXT); Some(Parsed(False, at + 5))
    else if Stands(c, at, TRUE_TEXT) then KeywordEnds(c, at, TRUE_TEXT); Some(Parsed(True, at + 4))
    else None
  }

  lemma KeywordEnds(c: seq<byte>, at: nat, word: Chars)
    requires IsText(c) && Stands(c, at, word) && word != []
    ensures at + |word| < |c|
  {
    assert Nth(word, |word| - 1) != 0;
  }

  function ParseStringValue(c: seq<byte>, at: nat): (r: Option<Parsed>)
    requires IsText(c) && at < |c|
    ensures r.Some? ==> at < r.value.next < |c|
  {
    match ParseString(c, at)
    case None => None
    case Some(literal) => Some(Parsed(Str(Ptr(CStr(literal.bytes))), literal.next))
  }

  function ParseValue(c: seq<byte>, at: nat, depth: nat, strtod: Strtod): (r: Option<Parsed>)
    requires IsText(c) && at < |c|
    ensures r.Some? ==> at < r.value.next < |c|
    decreases |c| - at, 3
  {
    if ParseKeyword(c, at).Some? then ParseKeyword(c, at)
    else if c[at] == QUOTE then ParseStringValue(c, at)
    else if StartsNumber(c[at]) then ParseNumber(c, at, strtod)
    else if c[at] == LBRACKET then ParseArray(c, at, depth, strtod)
    else if c[at] == LBRACE then ParseObject(c, at, depth, strtod)
    else None
  }

  function ParseArray(c: seq<byte>, at: nat, depth: nat, strtod: Strtod): (r: Option<Parsed>)
    requires IsText(c) && at < |c|
    ensures r.Some? ==> at < r.value.next < |c|
    decreases |c| - at, 2
  {
    if depth >= NESTING_LIMIT || c[at] != LBRACKET then None
    else
      var first := Skip(c, at + 1);
      if c[first] == RBRACKET then Some(Parsed(Arr([]), first + 1))
      else ParseElements(c, first - 1, depth + 1, strtod, [])
  }

  /** The elements behind `at`, the byte in front of the next one, added to `sofar`. */
  function ParseElements(c: seq<byte>, at: nat, depth: nat, strtod: Strtod, sofar: seq<Value>): (r: Option<Parsed>)
    requires IsText(c) && at + 1 < |c|
    ensures r.Some? ==> at < r.value.next < |c|
    decreases |c| - at, 0
  {
    match ParseValue(c, Skip(c, at + 1), depth, strtod)
    case None => None
    case Some(element) =>
      AfterElement(c, Skip(c, element.next), depth, strtod, sofar + [element.value])
  }

  /** Whether the array goes on or ends at `at`, behind the element that was added last. */
  function AfterElement(c: seq<byte>, at: nat, depth: nat, strtod: Strtod, sofar: seq<Value>): (r: Option<Parsed>)
    requires IsText(c) && at < |c|
    ensures r.Some? ==> at < r.value.next < |c|
    decreases |c| - at, 1
  {
    if c[at] == COMMA then ParseElements(c, at, depth, strtod, sofar)
    else if c[at] == RBRACKET then Some(Parsed(Arr(sofar), at + 1))
    else None
  }

  function ParseObject(c: seq<byte>, at: nat, depth: nat, strtod: Strtod): (r: Option<Parsed>)
    requires IsText(c) && at < |c|
    ensures r.Some? ==> at < r.value.next < |c|
    decreases |c| - at, 2
  {
    if depth >= NESTING_LIMIT || c[at] != LBRACE then None
    else
      var first := Skip(c, at + 1);
      if c[first] == RBRACE then Some(Parsed(Obj([]), first + 1))
      else ParseMembers(c, first - 1, depth + 1, strtod, [])
  }

  /** The key behind `at` and the place of the value that goes with it. */
  function ParseKey(c: seq<byte>, at: nat): (r: Option<Literal>)
    requires IsText(c) && at + 1 < |c|
    ensures r.Some? ==> at < r.value.next < |c|
  {
    match ParseString(c, Skip(c, at + 1))
    case None => None
    case Some(key) =>
      var colon := Skip(c, key.next);
      if c[colon] != COLON then None else Some(Literal(key.bytes, Skip(c, colon + 1)))
  }

  function ParseMember(c: seq<byte>, at: nat, depth: nat, strtod: Strtod): (r: Option<Keyed>)
    requires IsText(c) && at + 1 < |c|
    ensures r.Some? ==> at < r.value.next < |c|
    decreases |c| - at, 0
  {
    match ParseKey(c, at)
    case None => None
    case Some(key) =>
      match ParseValue(c, key.next, depth, strtod)
      case None => None
      case Some(v) => Some(Keyed(Member(Ptr(CStr(key.bytes)), v.value), v.next))
  }

  function ParseMembers(c: seq<byte>, at: nat, depth: nat, strtod: Strtod, sofar: seq<Member>): (r: Option<Parsed>)
    requires IsText(c) && at + 1 < |c|
    ensures r.Some? ==> at < r.value.next < |c|
    decreases |c| - at, 1
  {
    match ParseMember(c, at, depth, strtod)
    case None => None
    case Some(keyed) => AfterMember(c, Skip(c, keyed.next), depth, strtod, sofar + [keyed.member])
  }

  function AfterMember(c: seq<byte>, at: nat, depth: nat, strtod: Strtod, sofar: seq<Member>): (r: Option<Parsed>)
    requires IsText(c) && at < |c|
    ensures r.Some? ==> at < r.value.next < |c|
    decreases |c| - at, 2
  {
    if c[at] == COMMA then ParseMembers(c, at, depth, strtod, sofar)
    else if c[at] == RBRACE then Some(Parsed(Obj(sofar), at + 1))
    else None
  }

  const BOM: Chars := [0xEF, 0xBB, 0xBF]

  /** Where the value is looked for: behind a byte order mark and blanks. */
  function Start(c: seq<byte>): (r: nat)
    requires IsText(c)
    ensures r < |c|
  {
    Skip(c, if Stands(c, 0, BOM) && |c| > 4 then 3 else 0)
  }

  /** What a C string parses to and where parsing stops; nothing may follow if `terminated`. */
  function Parse(text: Chars, terminated: bool, strtod: Strtod): (r: Option<Parsed>)
    ensures r.Some? ==> r.value.next <= |text|
  {
    var c := text + [0];
    match ParseValue(c, Start(c), 0, strtod)
    case None => None
    case Some(parsed) =>
      if !terminated then Some(parsed)
      else
        var end := Skip(c, parsed.next);
        if c[end] != 0 then None else Some(Parsed(parsed.value, end))
  }
}
