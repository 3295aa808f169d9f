/** JSON values as cJSON items hold them, and the text that printing one is meant to give. */
module Json {

  datatype Option<T> = None | Some(value: T)

  type byte = x: int | 0 <= x < 256

  /** The bytes of a C string, its terminator left out. */
  type Chars = s: seq<byte> | NoZero(s) witness []

  predicate NoZero(s: seq<byte>) {
    forall i :: 0 <= i < |s| ==> s[i] != 0
  }

  /** A `char *` that may be NULL. */
  datatype CString = NullPtr | Ptr(s: Chars)

  /** An item by its type; `Invalid` is every type `print_value` does not know.  A number is the
      text that printing it gives. */
  datatype Value =
    | Invalid
    | Null
    | False
    | True
    | Number(token: Chars)
    | Raw(raw: CString)
    | Str(str: CString)
    | Arr(items: seq<Value>)
    | Obj(members: seq<Member>)

  datatype Member = Member(key: CString, value: Value)

  /** What `strtod` makes of some number characters: how many it takes, and how the number prints. */
  datatype Scan = Scan(length: nat, token: Chars)

  type Strtod = seq<byte> -> Scan

  const QUOTE: byte := 34
  const BACKSLASH: byte := 92
  const COMMA: byte := 44
  const COLON: byte := 58
  const SPACE: byte := 32
  const TAB: byte := 9
  const NEWLINE: byte := 10
  const LBRACKET: byte := 91
  const RBRACKET: byte := 93
  const LBRACE: byte := 123
  const RBRACE: byte := 125

  const NULL_TEXT: Chars := [110, 117, 108, 108]
  const FALSE_TEXT: Chars := [102, 97, 108, 115, 101]
  const TRUE_TEXT: Chars := [116, 114, 117, 101]

  /** The size of a number's buffer without its terminator. */
  const MAX_NUMBER: nat := 25

  // ----- strings

  function HexDigit(d: byte): byte
    requires d < 16
  {
    if d < 10 then 48 + d else 87 + d
  }

  predicate IsPlain(c: byte) {
    c > 31 && c != QUOTE && c != BACKSLASH
  }

  /** The letter of a one-letter escape, 0 if `c` has none. */
  function EscapeLetter(c: byte): byte {
    if c == BACKSLASH then BACKSLASH
    else if c == QUOTE then QUOTE
    else if c == 8 then 98
    else if c == 12 then 102
    else if c == 10 then 110
    else if c == 13 then 114
    else if c == 9 then 116
    else 0
  }

  /** `digits` hexadecimal digits of `v`, as `sprintf` writes them. */
  function HexText(v: nat, digits: nat): (r: seq<byte>)
    requires digits > 0
    ensures |r| == digits
  {
    if digits == 1 then [HexDigit(v % 16)] else HexText(v / 16, digits - 1) + [HexDigit(v % 16)]
  }

  function EscapeChar(c: byte): (r: seq<byte>)
    ensures 1 <= |r| <= 6
  {
    if IsPlain(c) then [c]
    else if EscapeLetter(c) != 0 then [BACKSLASH, EscapeLetter(c)]
    else [BACKSLASH, 117] + HexText(c, 4)
  }

  /** The bytes of `s` from `k` on, escaped. */
  function Escaped(s: seq<byte>, k: nat): seq<byte>
    requires k <= |s|
    decreases |s| - k, 1
  {
    if k == |s| then [] else EscapedOn(s, k)
  }

  function EscapedOn(s: seq<byte>, k: nat): seq<byte>
    requires k < |s|
    decreases |s| - k, 0
  {
    EscapeChar(s[k]) + Escaped(s, k + 1)
  }

  /** A string or key as it is printed; a NULL one prints like an empty one. */
  function Quoted(s: CString): seq<byte> {
    if s.NullPtr? then [QUOTE, QUOTE] else [QUOTE] + Escaped(s.s, 0) + [QUOTE]
  }

  // ----- whole values

  function Tabs(n: nat): (r: seq<byte>)
    ensures |r| == n
  {
    if n == 0 then [] else [TAB] + Tabs(n - 1)
  }

  lemma {:induction false} TabAt(n: nat, i: nat)
    requires i < n
    ensures Tabs(n)[i] == TAB
  {
    if i > 0 {
      TabAt(n - 1, i - 1);
    }
  }

  lemma TabsHaveNoZero(n: nat)
    ensures NoZero(Tabs(n))
  {
    forall i | 0 <= i < n ensures Tabs(n)[i] != 0 {
      TabAt(n, i);
    }
  }

  function Separator(fmt: bool): seq<byte> {
    if fmt then [COMMA, SPACE] else [COMMA]
  }

  /** The text of `v`, printed `depth` levels deep. */
  function Text(v: Value, fmt: bool, depth: nat): seq<byte>
    decreases v, 1
  {
    match v
    case Invalid => []
    case Null => NULL_TEXT
    case False => FALSE_TEXT
    case True => TRUE_TEXT
    case Number(token) => token
    case Raw(raw) => if raw.NullPtr? then [] else raw.s
    case Str(s) => Quoted(s)
    case Arr(items) => [LBRACKET] + Items(items, 0, fmt, depth + 1)
    case Obj(members) => Opening(fmt) + Members(members, 0, fmt, depth + 1)
  }

  function Closing(fmt: bool, depth: nat): Chars {
    TabsHaveNoZero(depth);
    if fmt then Tabs(depth) + [RBRACE] else [RBRACE]
  }

  function Opening(fmt: bool): seq<byte> {
    if fmt then [LBRACE, NEWLINE] else [LBRACE]
  }

  /** Element `i` of an array and the separator behind it. */
  function ElementText(items: seq<Value>, i: nat, fmt: bool, depth: nat): seq<byte>
    requires i < |items|
    decreases items, 0
  {
    Text(items[i], fmt, depth) + if i + 1 < |items| then Separator(fmt) else []
  }

  /** The elements of an array from `k` on and the closing bracket. */
  function Items(items: seq<Value>, k: nat, fmt: bool, depth: nat): seq<byte>
    requires k <= |items|
    decreases items, 1, |items| - k
  {
    if k == |items| then [RBRACKET] else ElementText(items, k, fmt, depth) + Items(items, k + 1, fmt, depth)
  }

  /** What goes in front of the value of a member. */
  function Key(key: CString, fmt: bool, depth: nat): seq<byte> {
    if fmt then Tabs(depth) + Quoted(key) + [COLON, TAB] else Quoted(key) + [COLON]
  }

  /** What ends a member: a comma unless it is the last one, and the end of the line. */
  function MemberEnd(last: bool, fmt: bool): seq<byte> {
    if fmt then (if last then [NEWLINE] else [COMMA, NEWLINE]) else (if last then [] else [COMMA])
  }

  function KeyAndValue(m: Member, fmt: bool, depth: nat): seq<byte>
    decreases m, 1
  {
    Key(m.key, fmt, depth) + Text(m.value, fmt, depth)
  }

  /** Member `i` of an object with its key and what is behind it. */
  function MemberText(members: seq<Member>, i: nat, fmt: bool, depth: nat): seq<byte>
    requires i < |members|
    decreases members, 0
  {
    KeyAndValue(members[i], fmt, depth) + MemberEnd(i + 1 == |members|, fmt)
  }

  /** The members of an object from `k` on and the closing brace, which stands one level further out. */
  function Members(members: seq<Member>, k: nat, fmt: bool, depth: nat): seq<byte>
    requires k <= |members| && depth > 0
    decreases members, 1, |members| - k
  {
    if k == |members| then Closing(fmt, depth - 1) else MemberText(members, k, fmt, depth) + Members(members, k + 1, fmt, depth)
  }

  /** The values that print at all. */
  predicate Printable(v: Value)
    decreases v
  {
    match v
    case Invalid => false
    case Number(token) => |token| <= MAX_NUMBER
    case Raw(raw) => raw.Ptr?
    case Arr(items) => forall i :: 0 <= i < |items| ==> Printable(items[i])
    case Obj(members) => forall i :: 0 <= i < |members| ==> Printable(members[i].value)
    case _ => true
  }

  // ----- printed text holds no terminator

  lemma {:induction false} HexTextHasNoZero(v: nat, digits: nat)
    requires digits > 0
    ensures NoZero(HexText(v, digits))
  {
    if digits > 1 {
      HexTextHasNoZero(v / 16, digits - 1);
    }
  }

  lemma EscapeCharHasNoZero(c: byte)
    requires c != 0
    ensures NoZero(EscapeChar(c))
  {
    HexTextHasNoZero(c, 4);
  }

  lemma {:induction false} EscapedHasNoZero(s: Chars, k: nat)
    requires k <= |s|
    ensures NoZero(Escaped(s, k))
    decreases |s| - k
  {
    if k < |s| {
      EscapedHasNoZero(s, k + 1);
      EscapeCharHasNoZero(s[k]);
    }
  }

  lemma QuotedHasNoZero(s: CString)
    ensures NoZero(Quoted(s))
  {
    if s.Ptr? {
      EscapedHasNoZero(s.s, 0);
    }
  }

  lemma {:induction false} TextHasNoZero(v: Value, fmt: bool, depth: nat)
    ensures NoZero(Text(v, fmt, depth))
    decreases v, 1
  {
    match v
    case Str(s) => QuotedHasNoZero(s);
    case Arr(items) => ItemsHaveNoZero(items, 0, fmt, depth + 1);
    case Obj(members) => MembersHaveNoZero(members, 0, fmt, depth + 1);
    case _ =>
  }

  lemma {:induction false} ItemsHaveNoZero(items: seq<Value>, k: nat, fmt: bool, depth: nat)
    requires k <= |items|
    ensures NoZero(Items(items, k, fmt, depth))
    decreases items, 0, |items| - k
  {
    if k < |items| {
      ItemsHaveNoZero(items, k + 1, fmt, depth);
      TextHasNoZero(items[k], fmt, depth);
    }
  }

  lemma {:induction false} MemberHasNoZero(m: Member, fmt: bool, depth: nat)
    ensures NoZero(KeyAndValue(m, fmt, depth))
    decreases m, 1
  {
    QuotedHasNoZero(m.key);
    TabsHaveNoZero(depth);
    TextHasNoZero(m.value, fmt, depth);
  }

  lemma {:induction false} MembersHaveNoZero(members: seq<Member>, k: nat, fmt: bool, depth: nat)
    requires k <= |members| && depth > 0
    ensures NoZero(Members(members, k, fmt, depth))
    decreases members, 0, |members| - k
  {
    if k < |members| {
      MembersHaveNoZero(members, k + 1, fmt, depth);
      MemberHasNoZero(members[k], fmt, depth);
    }
  }
}
