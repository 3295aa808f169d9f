/** The printed text, byte by byte: which escape a byte gets, and where the printer puts blanks. */
module JsonLayout {
  import opened Json
  import opened JsonUtf8
  import opened JsonGrammar
  import opened JsonSyntax

  // ----- strings

  /** How `print_string_ptr` writes a byte. */
  lemma EscapeTable(c: byte)
    ensures c == 34 ==> EscapeChar(c) == [92, 34]
    ensures c == 92 ==> EscapeChar(c) == [92, 92]
    ensures c == 8 ==> EscapeChar(c) == [92, 98]
    ensures c == 12 ==> EscapeChar(c) == [92, 102]
    ensures c == 10 ==> EscapeChar(c) == [92, 110]
    ensures c == 13 ==> EscapeChar(c) == [92, 114]
    ensures c == 9 ==> EscapeChar(c) == [92, 116]
    ensures c < 32 && !(8 <= c <= 10 || c == 12 || c == 13) ==>
              EscapeChar(c)
              == [92, 117, 48, 48, if c < 16 then 48 else 49, if c % 16 < 10 then 48 + c % 16 else 87 + c % 16]
    ensures c >= 32 && c != 34 && c != 92 ==> EscapeChar(c) == [c]
  {
    if c < 32 {
      assert HexText(c, 4) == HexText(c / 16, 3) + [HexDigit(c % 16)];
      assert HexText(c / 16, 3) == HexText(0, 2) + [HexDigit(c / 16)];
      assert HexText(0, 2) == HexText(0, 1) + [48];
    }
  }

  /** The letters of the escapes of one letter, and what they stand for. */
  lemma LetterTable(letter: byte)
    ensures SimpleEscape(letter) ==
            match letter
            case 34 => Some(34)
            case 92 => Some(92)
            case 47 => Some(47)
            case 98 => Some(8)
            case 102 => Some(12)
            case 110 => Some(10)
            case 114 => Some(13)
            case 116 => Some(9)
            case _ => None
  {
  }

  function PartOf(c: byte): Part {
    if c == 34 || c == 92 then Short(c)
    else if c == 8 then Short(98)
    else if c == 12 then Short(102)
    else if c == 10 then Short(110)
    else if c == 13 then Short(114)
    else if c == 9 then Short(116)
    else if c < 32 then
      Unicode([48, 48, if c < 16 then 48 else 49, if c % 16 < 10 then 48 + c % 16 else 87 + c % 16], c)
    else Plain(c)
  }

  lemma PartIs(c: byte)
    ensures PartOf(c).Lawful() && PartOf(c).Spelled() == EscapeChar(c) && PartOf(c).Meaning() == [c]
  {
    EscapeTable(c);
  }

  function Parts(s: seq<byte>, k: nat): (r: seq<Part>)
    requires k <= |s|
    ensures |r| == |s| - k
    decreases |s| - k
  {
    if k == |s| then [] else [PartOf(s[k])] + Parts(s, k + 1)
  }

  lemma {:induction false} PartsAre(s: seq<byte>, k: nat)
    requires k <= |s|
    ensures AllLawful(Parts(s, k)) && Spelled(Parts(s, k)) == Escaped(s, k) && Meaning(Parts(s, k)) == s[k..]
    decreases |s| - k
  {
    if k < |s| {
      PartsAre(s, k + 1);
      PartIs(s[k]);
      var more := Parts(s, k + 1);
      assert ([PartOf(s[k])] + more)[1..] == more;
      assert s[k..] == [s[k]] + s[k + 1..];
      hide PartOf, Part.Lawful, Part.Spelled, Part.Meaning, EscapeChar;
    }
  }

  lemma EnclosedChar(c: byte, rest: seq<byte>)
    requires Enclosed(rest)
    ensures Enclosed(EscapeChar(c) + rest)
  {
    EscapeTable(c);
    var e := EscapeChar(c);
    hide EscapeChar;
    if |e| == 6 {
      EnclosedBytes(e[2..], rest);
      EnclosedEscape(e[1], e[2..] + rest);
      assert e + rest == [92, e[1]] + (e[2..] + rest);
    } else if |e| == 2 {
      EnclosedEscape(e[1], rest);
    } else {
      EnclosedBytes(e, rest);
    }
  }

  lemma EnclosedEscape(letter: byte, rest: seq<byte>)
    requires Enclosed(rest)
    ensures Enclosed([92, letter] + rest)
  {
    assert ([92, letter] + rest)[2..] == rest;
  }

  lemma {:induction false} EnclosedBytes(s: seq<byte>, rest: seq<byte>)
    requires Enclosed(rest) && forall i :: 0 <= i < |s| ==> s[i] != 34 && s[i] != 92
    ensures Enclosed(s + rest)
  {
    if s == [] {
      assert s + rest == rest;
    } else {
      EnclosedBytes(s[1..], rest);
      assert (s + rest)[1..] == s[1..] + rest;
    }
  }

  lemma {:induction false} EscapedEnclosed(s: seq<byte>, k: nat)
    requires k <= |s|
    ensures Enclosed(Escaped(s, k))
    decreases |s| - k
  {
    if k < |s| {
      EscapedEnclosed(s, k + 1);
      EnclosedChar(s[k], Escaped(s, k + 1));
    }
  }

  lemma {:induction false} WholeChars(s: Chars)
    ensures Before0(s) == s
  {
    if s != [] {
      WholeChars(s[1..]);
    }
  }

  function LitOf(s: Chars): Lit {
    Lit(Escaped(s, 0), Parts(s, 0))
  }

  lemma LitIs(s: Chars)
    ensures LitOf(s).Lawful() && LitOf(s).Chars() == s && LitOf(s).Written() == Quoted(Ptr(s))
  {
    PartsAre(s, 0);
    EscapedEnclosed(s, 0);
    assert s[0..] == s;
    WholeChars(s);
    hide Enclosed, Escaped, Parts, Meaning;
  }

  /** A NULL string prints like an empty one. */
  function StringOf(s: CString): Chars {
    if s.Ptr? then s.s else []
  }

  lemma StringIs(s: CString)
    ensures LitOf(StringOf(s)).Written() == Quoted(s)
  {
    LitIs(StringOf(s));
  }

  // ----- values

  /** No raw text, and no type that does not print. */
  predicate Textual(v: Value)
    decreases v
  {
    match v
    case Invalid | Raw(_) => false
    case Arr(items) => forall i :: 0 <= i < |items| ==> Textual(items[i])
    case Obj(members) => forall i :: 0 <= i < |members| ==> Textual(members[i].value)
    case _ => true
  }

  function Indent(n: nat): seq<byte> {
    seq(n, i => 9)
  }

  /** The text that printing `v` should give: formatted, a space behind the commas of an array, and a line for every
      member, as far in as it is deep, with a tab behind the colon. */
  function Layout(v: Value, fmt: bool, depth: nat): Syntax
    decreases v, 1
  {
    match v
    case Null | False | True => Keyword(v)
    case Number(token) => Numeral(token, [])
    case Str(s) => Quote(LitOf(StringOf(s)))
    case Arr(items) => List([], seq(|items|, i requires 0 <= i < |items| => ElementOf(items, i, fmt, depth + 1)))
    case Obj(members) =>
      Record(if fmt then [10] + Indent(depth) else [],
             seq(|members|, i requires 0 <= i < |members| => FieldOf(members[i], i + 1 == |members|, fmt, depth + 1)))
    case _ => Keyword(Null)
  }

  function ElementOf(items: seq<Value>, i: nat, fmt: bool, depth: nat): Element
    requires i < |items|
    decreases items, 0
  {
    Element(if fmt && i > 0 then [32] else [], Layout(items[i], fmt, depth), [])
  }

  function FieldOf(m: Member, last: bool, fmt: bool, depth: nat): Field
    requires depth > 0
    decreases m, 2
  {
    var before := if fmt then [10] + Indent(depth) else [];
    var lead := if fmt then [9] else [];
    var after := if fmt && last then [10] + Indent(depth - 1) else [];
    Field(before, LitOf(StringOf(m.key)), [], lead, Layout(m.value, fmt, depth), after)
  }

  lemma IndentIs(n: nat)
    ensures Tabs(n) == Indent(n)
  {
    forall i | 0 <= i < n ensures Tabs(n)[i] == Indent(n)[i] {
      TabAt(n, i);
    }
  }

  // ----- the printed text is that layout

  lemma {:induction false} ItemsAre(items: seq<Value>, es: seq<Element>, k: nat, fmt: bool, depth: nat)
    requires k < |items| == |es| && forall i :: 0 <= i < |items| ==> Textual(items[i])
    requires forall i :: 0 <= i < |items| ==> es[i] == ElementOf(items, i, fmt, depth)
    ensures Items(items, k, fmt, depth) == Elements(es, k)
    decreases items, 0, |items| - k
  {
    hide Textual;
    var text := Text(items[k], fmt, depth);
    TextIs(items[k], fmt, depth);
    assert ElementWritten(es[k]) == text;
    hide Text, ElementWritten;
    if k + 1 < |items| {
      ItemsAre(items, es, k + 1, fmt, depth);
      NextItem(text, es[k + 1].before, Elements(es, k + 1), fmt);
    } else {
      assert text + [] == text;
    }
  }

  lemma NextItem(text: seq<byte>, blank: seq<byte>, rest: seq<byte>, fmt: bool)
    requires blank == if fmt then [32] else []
    ensures text + Separator(fmt) + rest == text + ([44] + (blank + rest))
  {
    assert Separator(fmt) == [44] + blank;
  }

  /** What a line starts with. */
  function Line(fmt: bool): seq<byte> {
    if fmt then [10] else []
  }

  lemma KeyText(line: seq<byte>, tabs: seq<byte>, key: seq<byte>, colon: seq<byte>)
    ensures line + (tabs + key + colon) == line + tabs + (key + colon)
  {
  }

  lemma KeyIs(key: CString, x: Field, fmt: bool, depth: nat)
    requires x.key == LitOf(StringOf(key)) && x.between == [] && x.lead == if fmt then [9] else []
    requires x.before == if fmt then [10] + Indent(depth) else []
    ensures Line(fmt) + Key(key, fmt, depth) == x.before + KeyWritten(x)
  {
    StringIs(key);
    IndentIs(depth);
    hide Quoted, LitOf, Lit.Written, Tabs, Indent;
    assert x.between + ([58] + x.lead) == if fmt then [COLON, TAB] else [COLON];
    if fmt {
      KeyText([10], Tabs(depth), Quoted(key), [COLON, TAB]);
    } else {
      assert [] + (Quoted(key) + [COLON]) == Quoted(key) + [COLON];
    }
  }

  lemma EndIs(after: seq<byte>, fmt: bool, depth: nat)
    requires depth > 0 && after == if fmt then [10] + Indent(depth - 1) else []
    ensures MemberEnd(true, fmt) + Closing(fmt, depth - 1) == after + [125]
  {
    IndentIs(depth - 1);
    hide Tabs, Indent;
  }

  lemma Regrouped(line: seq<byte>, key: seq<byte>, text: seq<byte>, end: seq<byte>, more: seq<byte>)
    ensures line + (((key + text) + end) + more) == (line + key) + (text + (end + more))
  {
  }

  lemma Regrouped2(before: seq<byte>, key: seq<byte>, text: seq<byte>, after: seq<byte>, more: seq<byte>)
    ensures (before + key) + (text + (after + more)) == before + ((key + (text + after)) + more)
  {
  }

  lemma CommaIs(fmt: bool, more: seq<byte>, next: seq<byte>)
    requires Line(fmt) + more == next
    ensures MemberEnd(false, fmt) + more == [] + ([44] + next)
  {
    assert MemberEnd(false, fmt) == [44] + Line(fmt);
  }

  lemma FieldParts(m: Member, last: bool, fmt: bool, depth: nat)
    requires depth > 0
    ensures var x := FieldOf(m, last, fmt, depth);
            && x.key == LitOf(StringOf(m.key)) && x.between == [] && x.lead == (if fmt then [9] else [])
            && x.before == (if fmt then [10] + Indent(depth) else []) && x.item == Layout(m.value, fmt, depth)
            && x.after == if fmt && last then [10] + Indent(depth - 1) else []
  {
    hide Layout, Indent;
  }

  lemma MembersOpen(members: seq<Member>, k: nat, fmt: bool, depth: nat)
    requires k < |members| && depth > 0
    ensures var m := members[k];
            Members(members, k, fmt, depth)
            == ((Key(m.key, fmt, depth) + Text(m.value, fmt, depth)) + MemberEnd(k + 1 == |members|, fmt))
               + if k + 1 == |members| then Closing(fmt, depth - 1) else Members(members, k + 1, fmt, depth)
  {
    hide Key, Text, MemberEnd, Closing;
    assert MemberText(members, k, fmt, depth) == KeyAndValue(members[k], fmt, depth) + MemberEnd(k + 1 == |members|, fmt);
    assert KeyAndValue(members[k], fmt, depth) == Key(members[k].key, fmt, depth) + Text(members[k].value, fmt, depth);
    assert k + 1 == |members| ==> Members(members, k + 1, fmt, depth) == Closing(fmt, depth - 1);
  }

  lemma FieldsOpen(fs: seq<Field>, k: nat)
    requires k < |fs|
    ensures var x := fs[k];
            Fields(fs, k)
            == (KeyWritten(x) + (Written(x.item) + x.after))
               + if k + 1 == |fs| then [125] else [44] + (fs[k + 1].before + Fields(fs, k + 1))
  {
    hide KeyWritten, Written;
  }

  lemma {:induction false} MembersAre(members: seq<Member>, fs: seq<Field>, k: nat, fmt: bool, depth: nat)
    requires k < |members| == |fs| && depth > 0 && forall i :: 0 <= i < |members| ==> Textual(members[i].value)
    requires forall i :: 0 <= i < |members| ==> fs[i] == FieldOf(members[i], i + 1 == |members|, fmt, depth)
    ensures Line(fmt) + Members(members, k, fmt, depth) == fs[k].before + Fields(fs, k)
    decreases members, 0, |members| - k
  {
    hide *;
    var m, x := members[k], fs[k];
    FieldParts(m, k + 1 == |members|, fmt, depth);
    MemberIs(m, fmt, depth);
    KeyIs(m.key, x, fmt, depth);
    MembersOpen(members, k, fmt, depth);
    FieldsOpen(fs, k);
    var key, text, end := Key(m.key, fmt, depth), Text(m.value, fmt, depth), MemberEnd(k + 1 == |members|, fmt);
    if k + 1 < |members| {
      MembersAre(members, fs, k + 1, fmt, depth);
      CommaIs(fmt, Members(members, k + 1, fmt, depth), fs[k + 1].before + Fields(fs, k + 1));
      Regrouped(Line(fmt), key, text, end, Members(members, k + 1, fmt, depth));
      Regrouped2(x.before, KeyWritten(x), text, [], [44] + (fs[k + 1].before + Fields(fs, k + 1)));
    } else {
      EndIs(x.after, fmt, depth);
      Regrouped(Line(fmt), key, text, end, Closing(fmt, depth - 1));
      Regrouped2(x.before, KeyWritten(x), text, x.after, [125]);
    }
  }

  lemma {:induction false} MemberIs(m: Member, fmt: bool, depth: nat)
    requires Textual(m.value)
    ensures Text(m.value, fmt, depth) == Written(Layout(m.value, fmt, depth))
    decreases m, 2
  {
    hide Text, Written, Layout, Textual;
    TextIs(m.value, fmt, depth);
  }

  lemma OpeningIs(fmt: bool, more: seq<byte>, next: seq<byte>)
    requires Line(fmt) + more == next
    ensures Opening(fmt) + more == [123] + next
  {
    assert Opening(fmt) == [123] + Line(fmt);
  }

  lemma EmptyIs(fmt: bool, depth: nat)
    ensures Text(Obj([]), fmt, depth) == Written(Layout(Obj([]), fmt, depth))
  {
    IndentIs(depth);
    hide Tabs, Indent;
    assert Text(Obj([]), fmt, depth) == Opening(fmt) + Closing(fmt, depth);
  }

  lemma {:induction false} ArrayIs(items: seq<Value>, fmt: bool, depth: nat)
    requires Textual(Arr(items))
    ensures Text(Arr(items), fmt, depth) == Written(Layout(Arr(items), fmt, depth))
    decreases items, 1
  {
    var es := seq(|items|, i requires 0 <= i < |items| => ElementOf(items, i, fmt, depth + 1));
    assert Layout(Arr(items), fmt, depth) == List([], es);
    hide Layout;
    if items != [] {
      ItemsAre(items, es, 0, fmt, depth + 1);
      hide Items, Elements;
      assert es[0].before + Elements(es, 0) == Elements(es, 0);
    }
  }

  lemma RecordWritten(gap: seq<byte>, fs: seq<Field>)
    requires fs != []
    ensures Written(Record(gap, fs)) == [123] + (fs[0].before + Fields(fs, 0))
  {
  }

  lemma ObjectText(members: seq<Member>, fmt: bool, depth: nat)
    ensures Text(Obj(members), fmt, depth) == Opening(fmt) + Members(members, 0, fmt, depth + 1)
  {
  }

  lemma {:induction false} ObjectIs(members: seq<Member>, fmt: bool, depth: nat)
    requires Textual(Obj(members))
    ensures Text(Obj(members), fmt, depth) == Written(Layout(Obj(members), fmt, depth))
    decreases members, 1
  {
    hide Text, Written;
    if members == [] {
      EmptyIs(fmt, depth);
    } else {
      var fs := seq(|members|, i requires 0 <= i < |members| => FieldOf(members[i], i + 1 == |members|, fmt, depth + 1));
      assert Layout(Obj(members), fmt, depth).fields == fs;
      hide Layout;
      MembersAre(members, fs, 0, fmt, depth + 1);
      hide Members, Fields, Line, Opening;
      OpeningIs(fmt, Members(members, 0, fmt, depth + 1), fs[0].before + Fields(fs, 0));
      ObjectText(members, fmt, depth);
      RecordWritten(Layout(Obj(members), fmt, depth).gap, fs);
    }
  }

  /** The text of a value is its layout. */
  lemma {:induction false} TextIs(v: Value, fmt: bool, depth: nat)
    requires Textual(v)
    ensures Text(v, fmt, depth) == Written(Layout(v, fmt, depth))
    decreases v, 1
  {
    hide LitOf, Textual;
    match v
    case Str(s) => StringIs(s);
    case Arr(items) =>
      hide Text, Written, Layout;
      ArrayIs(items, fmt, depth);
    case Obj(members) =>
      hide Text, Written, Layout;
      ObjectIs(members, fmt, depth);
    case _ => TextualLeaf(v);
  }

  lemma TextualLeaf(v: Value)
    requires Textual(v)
    ensures !v.Invalid? && !v.Raw?
  {
  }

  // ----- what prints at all

  /** `x` is `v` or somewhere in it. */
  ghost predicate Within(x: Value, v: Value)
    decreases v
  {
    x == v
    || match v
       case Arr(items) => exists i :: 0 <= i < |items| && Within(x, items[i])
       case Obj(members) => exists i :: 0 <= i < |members| && Within(x, members[i].value)
       case _ => false
  }

  /** What keeps a value from being printed: an unknown type, raw text that is NULL, a number of more than 25 bytes. */
  predicate Fails(x: Value) {
    x.Invalid? || x == Raw(NullPtr) || (x.Number? && |x.token| > 25)
  }

  /** A value is printable exactly if nothing in it fails. */
  lemma {:induction false} PrintableIs(v: Value)
    ensures Printable(v) <==> forall x :: Within(x, v) ==> !Fails(x)
    decreases v
  {
    assert Within(v, v);
    match v
    case Arr(items) =>
      forall i | 0 <= i < |items|
        ensures Printable(items[i]) <==> forall x :: Within(x, items[i]) ==> !Fails(x)
        ensures forall x :: Within(x, items[i]) ==> Within(x, v)
      {
        PrintableIs(items[i]);
      }
    case Obj(members) =>
      forall i | 0 <= i < |members|
        ensures Printable(members[i].value) <==> forall x :: Within(x, members[i].value) ==> !Fails(x)
        ensures forall x :: Within(x, members[i].value) ==> Within(x, v)
      {
        PrintableIs(members[i].value);
      }
    case _ =>
  }

  /** Raw text prints as it is. */
  lemma RawText(s: CString, fmt: bool, depth: nat)
    ensures Text(Raw(s), fmt, depth) == if s.Ptr? then s.s else []
  {
  }
}
