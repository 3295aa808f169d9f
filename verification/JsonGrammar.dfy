/** The texts that cJSON reads, by their concrete syntax, with every byte written out: section 7 of RFC 8259 for
    strings, and cJSON's own leniency for blanks, numbers and bad digits.  Nothing here refers to the parser. */
module JsonGrammar {
  import opened Json
  import opened JsonUtf8

  // ----- blanks

  predicate Blank(s: seq<byte>) {
    forall i :: 0 <= i < |s| ==> 1 <= s[i] <= 32
  }

  // ----- string literals

  /** A backslash takes the byte behind it along; so the quote behind these bytes is the closing one. */
  predicate Enclosed(raw: seq<byte>) {
    raw == []
    || (raw[0] != 34 && raw[0] != 92 && Enclosed(raw[1..]))
    || (raw[0] == 92 && |raw| >= 2 && Enclosed(raw[2..]))
  }

  /** `b` is a hexadecimal digit of value `v`: `0` to `9`, `A` to `F` or `a` to `f`. */
  predicate IsDigit(b: byte, v: int) {
    if v < 10 then 0 <= v && b == 48 + v else v < 16 && (b == 55 + v || b == 87 + v)
  }

  /** Four digits, the most significant one first. */
  predicate Spells(digits: seq<byte>, u: nat) {
    && |digits| == 4 && u < 0x1_0000
    && IsDigit(digits[0], u / 0x1000) && IsDigit(digits[1], u / 0x100 % 16)
    && IsDigit(digits[2], u / 0x10 % 16) && IsDigit(digits[3], u % 16)
  }

  predicate NoDigit(b: byte) {
    b < 48 || 57 < b < 65 || 70 < b < 97 || 102 < b
  }

  /** What a string consists of: bytes, escapes of one letter, escapes of a code point, and escapes with bad
      digits, which stand for the code point 0. */
  datatype Part =
    | Plain(b: byte)
    | Short(letter: byte)
    | Unicode(digits: seq<byte>, cp: nat)
    | Pair(high: seq<byte>, low: seq<byte>, cp: nat)
    | Garbled(digits: seq<byte>)
  {
    predicate Lawful() {
      match this
      case Plain(b) => b != 92
      case Short(letter) => letter in {34, 92, 47, 98, 102, 110, 114, 116}
      case Unicode(digits, cp) => Spells(digits, cp) && !(0xD800 <= cp <= 0xDFFF)
      case Pair(high, low, cp) =>
        && 0x1_0000 <= cp <= 0x10_FFFF
        && Spells(high, 0xD800 + (cp - 0x1_0000) / 0x400) && Spells(low, 0xDC00 + (cp - 0x1_0000) % 0x400)
      case Garbled(digits) =>
        |digits| == 4 && (NoDigit(digits[0]) || NoDigit(digits[1]) || NoDigit(digits[2]) || NoDigit(digits[3]))
    }

    function Spelled(): seq<byte> {
      match this
      case Plain(b) => [b]
      case Short(letter) => [92, letter]
      case Unicode(digits, _) => [92, 117] + digits
      case Pair(high, low, _) => [92, 117] + high + [92, 117] + low
      case Garbled(digits) => [92, 117] + digits
    }

    function Meaning(): seq<byte> {
      match this
      case Plain(b) => [b]
      case Short(letter) =>
        if letter == 98 then [8]
        else if letter == 102 then [12]
        else if letter == 110 then [10]
        else if letter == 114 then [13]
        else if letter == 116 then [9]
        else [letter]
      case Unicode(_, cp) => Utf8(cp)
      case Pair(_, _, cp) => Utf8(cp)
      case Garbled(_) => [0]
    }
  }

  function Spelled(parts: seq<Part>): seq<byte> {
    if parts == [] then [] else parts[0].Spelled() + Spelled(parts[1..])
  }

  function Meaning(parts: seq<Part>): seq<byte> {
    if parts == [] then [] else parts[0].Meaning() + Meaning(parts[1..])
  }

  predicate AllLawful(parts: seq<Part>) {
    forall i :: 0 <= i < |parts| ==> parts[i].Lawful()
  }

  /** The bytes between two quotes, and what they consist of.  When an escape with bad digits has swallowed a
      backslash, the last part can be an escape that takes the closing quote along. */
  datatype Lit = Lit(raw: seq<byte>, parts: seq<Part>) {
    predicate Lawful() {
      && Enclosed(raw) && AllLawful(parts)
      && (Spelled(parts) == raw
          || (parts != [] && parts[|parts| - 1] == Short(34) && Spelled(parts) == raw + [34]))
    }

    function Written(): seq<byte> {
      [34] + raw + [34]
    }

    /** The C string that the decoded bytes make. */
    function Chars(): Chars {
      Before0(Meaning(parts))
    }
  }

  function Before0(s: seq<byte>): Chars {
    if s == [] || s[0] == 0 then [] else [s[0]] + Before0(s[1..])
  }

  // ----- numbers

  /** The digits, the plus, minus and point, and both letters of an exponent. */
  predicate IsNumberByte(b: byte) {
    48 <= b <= 57 || b == 43 || b == 45 || b == 46 || b == 69 || b == 101
  }

  predicate AllNumberBytes(s: seq<byte>) {
    forall i :: 0 <= i < |s| ==> IsNumberByte(s[i])
  }

  predicate Digits(s: seq<byte>) {
    s != [] && forall i :: 0 <= i < |s| ==> 48 <= s[i] <= 57
  }

  /** A number of RFC 8259, section 6, in its four parts; leading zeros do no harm. */
  datatype NumberForm = NumberForm(minus: seq<byte>, whole: seq<byte>, fraction: seq<byte>, exponent: seq<byte>) {
    predicate Lawful() {
      && (minus == [] || minus == [45]) && Digits(whole)
      && (fraction == [] || (fraction[0] == 46 && Digits(fraction[1..])))
      && (exponent == []
          || ((exponent[0] == 69 || exponent[0] == 101)
              && (Digits(exponent[1..])
                  || (|exponent| >= 2 && (exponent[1] == 43 || exponent[1] == 45) && Digits(exponent[2..])))))
    }

    function Written(): seq<byte> {
      minus + whole + fraction + exponent
    }
  }

  ghost predicate IsNumberText(s: seq<byte>) {
    exists form: NumberForm :: form.Lawful() && form.Written() == s
  }

  // ----- values

  /** A numeral is what the conversion takes of the number bytes it is given; `left` are those it leaves. */
  datatype Syntax =
    | Keyword(value: Value)
    | Numeral(taken: seq<byte>, left: seq<byte>)
    | Quote(lit: Lit)
    | List(gap: seq<byte>, elements: seq<Element>)
    | Record(gap: seq<byte>, fields: seq<Field>)

  /** An element and the blanks around it. */
  datatype Element = Element(before: seq<byte>, item: Syntax, after: seq<byte>)

  /** A member and the blanks around its key and its value. */
  datatype Field =
    Field(before: seq<byte>, key: Lit, between: seq<byte>, lead: seq<byte>, item: Syntax, after: seq<byte>)

  function Written(j: Syntax): seq<byte>
    decreases j, 1
  {
    match j
    case Keyword(v) =>
      if v == True then [116, 114, 117, 101]
      else if v == False then [102, 97, 108, 115, 101]
      else [110, 117, 108, 108]
    case Numeral(taken, _) => taken
    case Quote(lit) => lit.Written()
    case List(gap, elements) =>
      [91] + if elements == [] then gap + [93] else elements[0].before + Elements(elements, 0)
    case Record(gap, fields) =>
      [123] + if fields == [] then gap + [125] else fields[0].before + Fields(fields, 0)
  }

  function ElementWritten(x: Element): seq<byte>
    decreases x, 2
  {
    Written(x.item) + x.after
  }

  /** The elements from `k` on, without what is before the first one, and the closing bracket. */
  function Elements(elements: seq<Element>, k: nat): seq<byte>
    requires k < |elements|
    decreases elements, 0, |elements| - k
  {
    ElementWritten(elements[k])
    + if k + 1 == |elements| then [93] else [44] + (elements[k + 1].before + Elements(elements, k + 1))
  }

  /** A key and the colon behind it. */
  function KeyWritten(x: Field): seq<byte> {
    x.key.Written() + (x.between + ([58] + x.lead))
  }

  function FieldWritten(x: Field): seq<byte>
    decreases x, 2
  {
    KeyWritten(x) + (Written(x.item) + x.after)
  }

  /** The members from `k` on, without what is before the first one, and the closing brace. */
  function Fields(fields: seq<Field>, k: nat): seq<byte>
    requires k < |fields|
    decreases fields, 0, |fields| - k
  {
    FieldWritten(fields[k])
    + if k + 1 == |fields| then [125] else [44] + (fields[k + 1].before + Fields(fields, k + 1))
  }

  predicate Lawful(j: Syntax, strtod: Strtod)
    decreases j, 1
  {
    match j
    case Keyword(v) => v == Null || v == False || v == True
    case Numeral(taken, left) =>
      && taken != [] && (taken[0] == 45 || 48 <= taken[0] <= 57)
      && AllNumberBytes(taken + left) && |taken + left| <= 63 && strtod(taken + left).length == |taken|
    case Quote(lit) => lit.Lawful()
    case List(gap, elements) => Blank(gap) && forall i :: 0 <= i < |elements| ==> ElementLawful(elements[i], strtod)
    case Record(gap, fields) => Blank(gap) && forall i :: 0 <= i < |fields| ==> FieldLawful(fields[i], strtod)
  }

  /** Behind an element no byte of a number may be left. */
  predicate ElementLawful(x: Element, strtod: Strtod)
    decreases x, 2
  {
    Blank(x.before) && Blank(x.after) && Lawful(x.item, strtod) && Whole(x.item)
  }

  predicate FieldLawful(x: Field, strtod: Strtod)
    decreases x, 2
  {
    && Blank(x.before) && x.key.Lawful() && Blank(x.between) && Blank(x.lead) && Blank(x.after)
    && Lawful(x.item, strtod) && Whole(x.item)
  }

  predicate Whole(j: Syntax) {
    j.Numeral? ==> j.left == []
  }

  /** The value that a text stands for. */
  function ValueOf(j: Syntax, strtod: Strtod): Value
    decreases j, 1
  {
    match j
    case Keyword(v) => v
    case Numeral(taken, left) => Number(strtod(taken + left).token)
    case Quote(lit) => Str(Ptr(lit.Chars()))
    case List(_, elements) => Arr(ValuesOf(elements, 0, strtod))
    case Record(_, fields) => Obj(MembersOf(fields, 0, strtod))
  }

  function ValuesOf(elements: seq<Element>, k: nat, strtod: Strtod): (r: seq<Value>)
    requires k <= |elements|
    ensures |r| == |elements| - k
    decreases elements, 0, |elements| - k
  {
    if k == |elements| then [] else [ElementValue(elements[k], strtod)] + ValuesOf(elements, k + 1, strtod)
  }

  function ElementValue(x: Element, strtod: Strtod): Value
    decreases x, 2
  {
    ValueOf(x.item, strtod)
  }

  function MembersOf(fields: seq<Field>, k: nat, strtod: Strtod): (r: seq<Member>)
    requires k <= |fields|
    ensures |r| == |fields| - k
    decreases fields, 0, |fields| - k
  {
    if k == |fields| then [] else [MemberOf(fields[k], strtod)] + MembersOf(fields, k + 1, strtod)
  }

  function MemberOf(x: Field, strtod: Strtod): Member
    decreases x, 2
  {
    Member(Ptr(x.key.Chars()), ValueOf(x.item, strtod))
  }

  // ----- nesting

  function Max(a: nat, b: nat): nat {
    if a < b then b else a
  }

  /** How deeply arrays and objects are nested in `v`. */
  function Nesting(v: Value): nat
    decreases v, 1
  {
    match v
    case Arr(items) => 1 + ItemNesting(items, 0)
    case Obj(members) => 1 + MemberNesting(members, 0)
    case _ => 0
  }

  function ItemNesting(items: seq<Value>, k: nat): nat
    requires k <= |items|
    decreases items, 0, |items| - k
  {
    if k == |items| then 0 else Max(Nesting(items[k]), ItemNesting(items, k + 1))
  }

  function InMember(m: Member): nat
    decreases m, 1
  {
    Nesting(m.value)
  }

  function MemberNesting(members: seq<Member>, k: nat): nat
    requires k <= |members|
    decreases members, 0, |members| - k
  {
    if k == |members| then 0 else Max(InMember(members[k]), MemberNesting(members, k + 1))
  }

  // ----- whole texts

  /** What may follow: number bytes that are left, and then, unless the conversion was given as many as it can
      be, no more of them. */
  predicate Follows(j: Syntax, rest: seq<byte>) {
    j.Numeral? ==>
      j.left <= rest && (|j.taken + j.left| == 63 || |rest| == |j.left| || !IsNumberByte(rest[|j.left|]))
  }

  /** A text in its parts: a byte order mark or none, blanks, a value, and what is behind it. */
  datatype Document = Document(mark: seq<byte>, lead: seq<byte>, body: Syntax, rest: seq<byte>)

  function DocumentWritten(d: Document): seq<byte> {
    d.mark + d.lead + Written(d.body) + d.rest
  }

  predicate DocumentFormed(d: Document, terminated: bool, strtod: Strtod) {
    && (d.mark == [] || d.mark == [0xEF, 0xBB, 0xBF]) && Blank(d.lead) && Lawful(d.body, strtod)
    && Follows(d.body, d.rest) && (terminated ==> Blank(d.rest))
  }

  /** No more than 1000 arrays and objects are nested. */
  predicate DocumentLawful(d: Document, terminated: bool, strtod: Strtod) {
    DocumentFormed(d, terminated, strtod) && Nesting(ValueOf(d.body, strtod)) <= 1000
  }
}
