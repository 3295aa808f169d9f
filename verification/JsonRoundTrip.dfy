/** What is printed reads back: the printed text is a text of the grammar, and the parser reads those. */
module JsonRoundTrip {
  import opened Json
  import opened JsonSyntax
  import opened JsonGrammar
  import opened JsonLayout
  import JsonAccepts
  import opened JsonDocument

  /** Number text that reads back as itself. */
  ghost predicate IsToken(token: Chars, strtod: Strtod) {
    |token| <= 25 && IsNumberText(token) && strtod(token) == Scan(|token|, token)
  }

  /** The values whose text tells them apart: no raw text, no NULL strings, number text that reads back. */
  ghost predicate Readable(v: Value, strtod: Strtod)
    decreases v
  {
    match v
    case Null | False | True => true
    case Number(token) => IsToken(token, strtod)
    case Str(s) => s.Ptr?
    case Arr(items) => forall i :: 0 <= i < |items| ==> Readable(items[i], strtod)
    case Obj(members) => forall i :: 0 <= i < |members| ==> members[i].key.Ptr? && Readable(members[i].value, strtod)
    case _ => false
  }

  // ----- the layout of a readable value is a text of the grammar

  lemma {:induction false} ReadableIsTextual(v: Value, strtod: Strtod)
    requires Readable(v, strtod)
    ensures Textual(v)
    decreases v
  {
    match v
    case Arr(items) =>
      forall i | 0 <= i < |items| ensures Textual(items[i]) {
        ReadableIsTextual(items[i], strtod);
      }
    case Obj(members) =>
      forall i | 0 <= i < |members| ensures Textual(members[i].value) {
        ReadableIsTextual(members[i].value, strtod);
      }
    case _ =>
  }

  lemma IndentBlank(n: nat)
    ensures Blank(Indent(n)) && Blank([10] + Indent(n)) && Blank([]) && Blank([9]) && Blank([32])
  {
  }

  /** `j` is a text of the grammar that means `v`. */
  predicate Means(j: Syntax, v: Value, strtod: Strtod) {
    Lawful(j, strtod) && Whole(j) && ValueOf(j, strtod) == v
  }

  lemma NumberMeans(token: Chars, strtod: Strtod)
    requires IsToken(token, strtod)
    ensures Means(Numeral(token, []), Number(token), strtod)
  {
    var form: NumberForm :| form.Lawful() && form.Written() == token;
    JsonAccepts.FormIsNumeral(form);
    assert token + [] == token;
  }

  lemma StringMeans(s: CString, strtod: Strtod)
    requires s.Ptr?
    ensures Means(Quote(LitOf(StringOf(s))), Str(s), strtod)
  {
    LitIs(s.s);
    hide LitOf, Lit.Lawful, Lit.Chars;
  }

  lemma {:induction false} ElementMeans(items: seq<Value>, i: nat, strtod: Strtod, fmt: bool, depth: nat)
    requires i < |items| && Readable(items[i], strtod)
    ensures ElementLawful(ElementOf(items, i, fmt, depth), strtod)
    ensures ElementValue(ElementOf(items, i, fmt, depth), strtod) == items[i]
    decreases items, 0
  {
    hide Layout, Lawful, ValueOf, Readable, Blank, Whole;
    LayoutMeans(items[i], strtod, fmt, depth);
    IndentBlank(0);
  }

  lemma {:induction false} FieldMeans(m: Member, last: bool, strtod: Strtod, fmt: bool, depth: nat)
    requires depth > 0 && m.key.Ptr? && Readable(m.value, strtod)
    ensures FieldLawful(FieldOf(m, last, fmt, depth), strtod) && MemberOf(FieldOf(m, last, fmt, depth), strtod) == m
    decreases m, 2
  {
    hide Layout, Lawful, ValueOf, Readable, Blank, LitOf, Lit.Lawful, Lit.Chars, Indent, Whole;
    LayoutMeans(m.value, strtod, fmt, depth);
    LitIs(m.key.s);
    IndentBlank(depth);
    IndentBlank(depth - 1);
  }

  lemma {:induction false} ValuesAre(items: seq<Value>, es: seq<Element>, k: nat, strtod: Strtod)
    requires k <= |items| == |es| && forall i :: 0 <= i < |items| ==> ElementValue(es[i], strtod) == items[i]
    ensures ValuesOf(es, k, strtod) == items[k..]
    decreases |items| - k
  {
    hide ElementValue;
    if k < |items| {
      ValuesAre(items, es, k + 1, strtod);
      assert items[k..] == [items[k]] + items[k + 1..];
    }
  }

  lemma {:induction false} MembersAreOf(members: seq<Member>, fs: seq<Field>, k: nat, strtod: Strtod)
    requires k <= |members| == |fs| && forall i :: 0 <= i < |members| ==> MemberOf(fs[i], strtod) == members[i]
    ensures MembersOf(fs, k, strtod) == members[k..]
    decreases |members| - k
  {
    hide MemberOf;
    if k < |members| {
      MembersAreOf(members, fs, k + 1, strtod);
      assert members[k..] == [members[k]] + members[k + 1..];
    }
  }

  lemma ListMeans(gap: seq<byte>, items: seq<Value>, es: seq<Element>, strtod: Strtod)
    requires Blank(gap) && |items| == |es|
    requires forall i :: 0 <= i < |items| ==> ElementLawful(es[i], strtod) && ElementValue(es[i], strtod) == items[i]
    ensures Means(List(gap, es), Arr(items), strtod)
  {
    ValuesAre(items, es, 0, strtod);
    hide ElementLawful, ElementValue, Blank;
  }

  lemma RecordMeans(gap: seq<byte>, members: seq<Member>, fs: seq<Field>, strtod: Strtod)
    requires Blank(gap) && |members| == |fs|
    requires forall i :: 0 <= i < |members| ==> FieldLawful(fs[i], strtod) && MemberOf(fs[i], strtod) == members[i]
    ensures Means(Record(gap, fs), Obj(members), strtod)
  {
    MembersAreOf(members, fs, 0, strtod);
    hide FieldLawful, MemberOf, Blank;
  }

  lemma {:induction false} ArrayMeans(items: seq<Value>, strtod: Strtod, fmt: bool, depth: nat)
    requires Readable(Arr(items), strtod)
    ensures Means(Layout(Arr(items), fmt, depth), Arr(items), strtod)
    decreases items, 1
  {
    hide Means, ElementOf, ElementLawful, ElementValue, Blank;
    var es := Layout(Arr(items), fmt, depth).elements;
    forall i | 0 <= i < |items| ensures ElementLawful(es[i], strtod) && ElementValue(es[i], strtod) == items[i] {
      ElementMeans(items, i, strtod, fmt, depth + 1);
    }
    IndentBlank(0);
    ListMeans([], items, es, strtod);
  }

  lemma {:induction false} ObjectMeans(members: seq<Member>, strtod: Strtod, fmt: bool, depth: nat)
    requires Readable(Obj(members), strtod)
    ensures Means(Layout(Obj(members), fmt, depth), Obj(members), strtod)
    decreases members, 1
  {
    hide Means, FieldOf, FieldLawful, MemberOf, Blank, Indent;
    var gap, fs := Layout(Obj(members), fmt, depth).gap, Layout(Obj(members), fmt, depth).fields;
    forall i | 0 <= i < |members| ensures FieldLawful(fs[i], strtod) && MemberOf(fs[i], strtod) == members[i] {
      FieldMeans(members[i], i + 1 == |members|, strtod, fmt, depth + 1);
    }
    IndentBlank(depth);
    RecordMeans(gap, members, fs, strtod);
  }

  /** The layout of a value is a text of the grammar that means the value. */
  lemma {:induction false} LayoutMeans(v: Value, strtod: Strtod, fmt: bool, depth: nat)
    requires Readable(v, strtod)
    ensures Means(Layout(v, fmt, depth), v, strtod)
    decreases v, 1
  {
    match v
    case Null | False | True =>
    case Number(token) =>
      NumberMeans(token, strtod);
      hide Means, IsToken;
    case Str(s) =>
      StringMeans(s, strtod);
      hide Means;
    case Arr(items) =>
      hide Means, Layout;
      ArrayMeans(items, strtod, fmt, depth);
    case Obj(members) =>
      hide Means, Layout;
      ObjectMeans(members, strtod, fmt, depth);
    case _ => assert false;
  }

  // ----- whole texts

  lemma TextDocument(v: Value, fmt: bool, strtod: Strtod) returns (d: Document)
    requires Readable(v, strtod)
    ensures d.mark == [] && d.lead == [] && d.rest == [] && Means(d.body, v, strtod)
    ensures DocumentWritten(d) == Text(v, fmt, 0) && |d.mark + d.lead + Written(d.body)| == |Text(v, fmt, 0)|
  {
    hide Means, Layout, Text, Readable, Written;
    ReadableIsTextual(v, strtod);
    LayoutMeans(v, strtod, fmt, 0);
    TextIs(v, fmt, 0);
    d := Document([], [], Layout(v, fmt, 0), []);
  }

  lemma DocumentMeans(d: Document, v: Value, terminated: bool, strtod: Strtod)
    requires d.mark == [] && d.lead == [] && d.rest == [] && Means(d.body, v, strtod)
    ensures DocumentFormed(d, terminated, strtod) && ValueOf(d.body, strtod) == v
  {
    hide Lawful, Nesting;
  }

  /** Parsing the text of a value, formatted or not, gives the value and ends with the text if nothing is
      nested deeper than the limit, and fails otherwise. */
  lemma RoundTrip(v: Value, fmt: bool, terminated: bool, strtod: Strtod)
    requires Readable(v, strtod)
    ensures NoZero(Text(v, fmt, 0))
    ensures Parse(Text(v, fmt, 0), terminated, strtod)
            == if Nesting(v) <= 1000 then Some(Parsed(v, |Text(v, fmt, 0)|)) else None
  {
    hide Means, Text, Readable, Parse, DocumentFormed, DocumentWritten;
    TextHasNoZero(v, fmt, 0);
    var d := TextDocument(v, fmt, strtod);
    DocumentMeans(d, v, terminated, strtod);
    DocumentReads(d, Text(v, fmt, 0), terminated, strtod);
  }
}
