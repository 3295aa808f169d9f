/** What the parser reads is a text of the grammar. */
module JsonSound {
  import opened Json
  import opened JsonSyntax
  import opened JsonGrammar
  import opened JsonPlaces
  import opened JsonAccepts
  import JsonLiteral

  /** The terminator is the first zero byte. */
  predicate IsCString(c: seq<byte>) {
    IsText(c) && forall i :: 0 <= i < |c| - 1 ==> c[i] != 0
  }

  /** `j` stands from `at` to `next` and means `v`. */
  predicate Derives(c: seq<byte>, at: nat, j: Syntax, v: Value, next: nat, depth: nat, strtod: Strtod) {
    && Lawful(j, strtod) && Stands(c, at, Written(j)) && next == at + |Written(j)| && Behind(c, next, j)
    && ValueOf(j, strtod) == v && depth + Nesting(v) <= 1000
  }

  // ----- keywords, strings, numbers

  lemma KeywordFound(c: seq<byte>, at: nat) returns (j: Syntax)
    requires IsText(c) && ParseKeyword(c, at).Some?
    ensures j.Keyword? && (j.value == Null || j.value == False || j.value == True) && Stands(c, at, Written(j))
    ensures ParseKeyword(c, at) == Some(Parsed(j.value, at + |Written(j)|))
  {
    j := Keyword(ParseKeyword(c, at).value.value);
  }

  lemma StringFound(c: seq<byte>, at: nat) returns (lit: Lit)
    requires IsText(c) && at < |c| && ParseStringValue(c, at).Some?
    ensures lit.Lawful() && Stands(c, at, lit.Written())
    ensures ParseStringValue(c, at) == Some(Parsed(Str(Ptr(lit.Chars())), at + |lit.Written()|))
  {
    hide ParseString, Lit.Lawful, Lit.Written, Meaning, Stands;
    lit := JsonLiteral.ReadLiteral(c, at);
    JsonLiteral.CStrIs(Meaning(lit.parts));
  }

  lemma {:induction false} SpanEnds(c: seq<byte>, at: nat, limit: nat)
    requires at <= |c|
    ensures var n := NumberSpan(c, at, limit);
            && at + n <= |c| && (forall i :: at <= i < at + n ==> IsNumberByte(c[i]))
            && (n == limit || at + n == |c| || !IsNumberByte(c[at + n]))
    decreases limit
  {
    if limit > 0 && at < |c| && IsNumberChar(c[at]) {
      SpanEnds(c, at + 1, limit - 1);
    }
  }

  /** The bytes that the conversion is given. */
  lemma NumberTextStands(c: seq<byte>, at: nat)
    requires IsCString(c) && at < |c|
    ensures var number := NumberText(c, at);
            && Stands(c, at, number) && at + |number| < |c| && AllNumberBytes(number) && |number| <= 63
            && (|number| == 63 || !IsNumberByte(c[at + |number|]))
  {
    var n := |NumberText(c, at)|;
    SpanEnds(c, at, 63);
    SliceStands(c, at, at + n);
    forall i | 0 <= i < n ensures IsNumberByte(NumberText(c, at)[i]) {
      assert NumberText(c, at)[i] == c[at + i];
    }
    assert n > 0 ==> IsNumberByte(c[at + n - 1]);
    hide Stands, IsNumberByte;
  }

  lemma NumberFound(c: seq<byte>, at: nat, strtod: Strtod) returns (taken: seq<byte>, left: seq<byte>)
    requires IsCString(c) && at < |c| && StartsNumber(c[at]) && ParseNumber(c, at, strtod).Some?
    ensures var j := Numeral(taken, left);
            && Lawful(j, strtod) && Stands(c, at, taken) && Behind(c, at + |taken|, j)
            && ParseNumber(c, at, strtod) == Some(Parsed(ValueOf(j, strtod), at + |taken|))
  {
    hide Stands, NumberText, AllNumberBytes, IsNumberByte;
    var number := NumberText(c, at);
    var k := ScanNumber(strtod, number).length;
    NumberTextStands(c, at);
    taken, left := number[..k], number[k..];
    assert number == taken + left;
    StandsConcat(c, at, taken, left);
    ByteAt(c, at, number, 0);
  }

  /** Numbers, strings and keywords. */
  lemma LeafFound(c: seq<byte>, at: nat, depth: nat, strtod: Strtod) returns (j: Syntax)
    requires IsCString(c) && at < |c| && depth <= 1000 && ParseValue(c, at, depth, strtod).Some?
    requires c[at] != 91 && c[at] != 123
    ensures var r := ParseValue(c, at, depth, strtod).value; Derives(c, at, j, r.value, r.next, depth, strtod)
  {
    hide Stands, Lit.Lawful, ParseString, NumberText;
    if ParseKeyword(c, at).Some? {
      j := KeywordFound(c, at);
    } else if c[at] == QUOTE {
      var lit := StringFound(c, at);
      j := Quote(lit);
    } else {
      var taken, left := NumberFound(c, at, strtod);
      j := Numeral(taken, left);
    }
  }

  // ----- blanks

  /** What is skipped is blank. */
  lemma Gap(c: seq<byte>, p: nat) returns (s: seq<byte>)
    requires IsCString(c) && p < |c|
    ensures Blank(s) && Stands(c, p, s) && Skip(c, p) == p + |s| && s == c[p..p + |s|]
  {
    var q := Skip(c, p);
    Skipped(c, p);
    s := c[p..q];
    SliceStands(c, p, q);
    forall i | 0 <= i < |s| ensures 1 <= s[i] <= 32 {
      assert s[i] == c[p + i];
    }
  }

  /** In front of a comma or a bracket no byte of a number is left. */
  lemma NothingLeft(c: seq<byte>, q: nat, j: Syntax, after: seq<byte>)
    requires Behind(c, q, j) && Blank(after) && Stands(c, q, after) && q + |after| < |c|
    requires c[q + |after|] in {44, 93, 125} && (j.Numeral? ==> AllNumberBytes(j.left))
    ensures Whole(j)
  {
    if j.Numeral? && j.left != [] {
      ByteAt(c, q, j.left, 0);
      if after != [] {
        ByteAt(c, q, after, 0);
      }
    }
  }

  lemma LeftIsNumber(j: Syntax, strtod: Strtod)
    requires Lawful(j, strtod)
    ensures j.Numeral? ==> AllNumberBytes(j.left)
  {
    if j.Numeral? {
      forall i | 0 <= i < |j.left| ensures IsNumberByte(j.left[i]) {
        assert j.left[i] == (j.taken + j.left)[|j.taken| + i];
      }
    }
  }

  // ----- arrays

  lemma ElementStep(c: seq<byte>, e: nat, depth: nat, strtod: Strtod, sofar: seq<Value>)
    requires IsText(c) && e + 1 < |c| && ParseElements(c, e, depth, strtod, sofar).Some?
    ensures var p := Skip(c, e + 1);
            && ParseValue(c, p, depth, strtod).Some?
            && var x := ParseValue(c, p, depth, strtod).value;
            && e < p < x.next < |c|
            && var r := Skip(c, x.next);
            && (c[r] == 44 || c[r] == 93) && r >= x.next
            && (c[r] == 44 ==>
                  r + 1 < |c| && ParseElements(c, e, depth, strtod, sofar) == ParseElements(c, r, depth, strtod, sofar + [x.value]))
            && (c[r] == 93 ==> ParseElements(c, e, depth, strtod, sofar) == Some(Parsed(Arr(sofar + [x.value]), r + 1)))
  {
    hide ParseValue, Skip;
    assert |c| > 0 && c[|c| - 1] == 0;
  }

  /** Elements that stand behind the byte at `e`. */
  predicate ElementsFrom(c: seq<byte>, e: nat, es: seq<Element>, depth: nat, strtod: Strtod, next: nat) {
    && es != [] && (forall i :: 0 <= i < |es| ==> ElementLawful(es[i], strtod))
    && Stands(c, e + 1, es[0].before + Elements(es, 0)) && next == e + 1 + |es[0].before + Elements(es, 0)|
    && depth + ItemNesting(ValuesOf(es, 0, strtod), 0) <= 1000
  }

  lemma ElementFound(c: seq<byte>, e: nat, p: nat, q: nat, j: Syntax, v: Value, depth: nat, strtod: Strtod)
    returns (x: Element, r: nat)
    requires IsCString(c) && e + 1 < |c| && p == Skip(c, e + 1) && Derives(c, p, j, v, q, depth, strtod) && q < |c|
    requires c[Skip(c, q)] in {44, 93, 125}
    ensures r == Skip(c, q) && ElementLawful(x, strtod) && ElementValue(x, strtod) == v
    ensures Stands(c, e + 1, x.before + ElementWritten(x)) && r == e + 1 + |x.before + ElementWritten(x)|
  {
    var before := Gap(c, e + 1);
    var after := Gap(c, q);
    r := q + |after|;
    LeftIsNumber(j, strtod);
    NothingLeft(c, q, j, after);
    x := Element(before, j, after);
    StandsJoin(c, p, Written(j), after);
    StandsJoin(c, e + 1, before, Written(j) + after);
  }

  lemma OneElement(c: seq<byte>, e: nat, x: Element, r: nat, depth: nat, strtod: Strtod)
    requires ElementLawful(x, strtod) && Stands(c, e + 1, x.before + ElementWritten(x))
    requires r == e + 1 + |x.before + ElementWritten(x)| < |c| && c[r] == 93
    requires depth + Nesting(ElementValue(x, strtod)) <= 1000
    ensures ElementsFrom(c, e, [x], depth, strtod, r + 1) && ValuesOf([x], 0, strtod) == [ElementValue(x, strtod)]
  {
    var es := [x];
    assert Elements(es, 0) == ElementWritten(x) + [93];
    assert ValuesOf(es, 0, strtod) == [ElementValue(x, strtod)] + ValuesOf(es, 1, strtod);
    OneStands(c, r, 93);
    StandsJoin(c, e + 1, x.before + ElementWritten(x), [93]);
    assert x.before + ElementWritten(x) + [93] == x.before + (ElementWritten(x) + [93]);
    NestingCons(ElementValue(x, strtod), []);
    NoValues([ElementValue(x, strtod)]);
    hide Stands, ElementWritten, ElementValue, ElementLawful, Nesting;
  }

  lemma {:induction false} ElementsTail(x: Element, es: seq<Element>, k: nat, strtod: Strtod)
    requires k < |es|
    ensures Elements([x] + es, k + 1) == Elements(es, k) && ValuesOf([x] + es, k + 1, strtod) == ValuesOf(es, k, strtod)
    decreases |es| - k
  {
    hide ElementWritten, ElementValue;
    assert ([x] + es)[k + 1] == es[k];
    if k + 1 < |es| {
      assert ([x] + es)[k + 2] == es[k + 1];
      ElementsTail(x, es, k + 1, strtod);
    }
  }

  /** What stands behind something and a comma. */
  lemma Glued(c: seq<byte>, p: nat, before: seq<byte>, w: seq<byte>, r: nat, more: seq<byte>)
    requires Stands(c, p, before + w) && r == p + |before + w| < |c| && c[r] == 44 && Stands(c, r + 1, more)
    ensures Stands(c, p, before + (w + ([44] + more)))
    ensures r + 1 + |more| == p + |before + (w + ([44] + more))|
  {
    OneStands(c, r, 44);
    StandsJoin(c, r, [44], more);
    StandsJoin(c, p, before + w, [44] + more);
    assert before + w + ([44] + more) == before + (w + ([44] + more));
    hide Stands;
  }

  lemma ElementsCons(c: seq<byte>, e: nat, x: Element, r: nat, es: seq<Element>, depth: nat, strtod: Strtod, next: nat)
    requires ElementLawful(x, strtod) && Stands(c, e + 1, x.before + ElementWritten(x))
    requires r == e + 1 + |x.before + ElementWritten(x)| < |c| && c[r] == 44
    requires depth + Nesting(ElementValue(x, strtod)) <= 1000 && ElementsFrom(c, r, es, depth, strtod, next)
    ensures ElementsFrom(c, e, [x] + es, depth, strtod, next)
    ensures ValuesOf([x] + es, 0, strtod) == [ElementValue(x, strtod)] + ValuesOf(es, 0, strtod)
  {
    hide Stands, ElementWritten, ElementValue, ElementLawful, Nesting, ItemNesting;
    var xs := [x] + es;
    ElementsTail(x, es, 0, strtod);
    assert Elements(xs, 0) == ElementWritten(x) + ([44] + (es[0].before + Elements(es, 0)));
    NestingCons(ElementValue(x, strtod), ValuesOf(es, 0, strtod));
    Glued(c, e + 1, x.before, ElementWritten(x), r, es[0].before + Elements(es, 0));
    hide Elements;
  }

  lemma {:induction false} NestingTail(v: Value, vs: seq<Value>, k: nat)
    requires k <= |vs|
    ensures ItemNesting([v] + vs, k + 1) == ItemNesting(vs, k)
    decreases |vs| - k
  {
    if k < |vs| {
      assert ([v] + vs)[k + 1] == vs[k];
      NestingTail(v, vs, k + 1);
    }
  }

  lemma NestingCons(v: Value, vs: seq<Value>)
    ensures ItemNesting([v] + vs, 0) == Max(Nesting(v), ItemNesting(vs, 0))
  {
    NestingTail(v, vs, 0);
    hide Nesting;
    assert ([v] + vs)[0] == v;
  }

  lemma ValuesJoin(sofar: seq<Value>, v: Value, vs: seq<Value>)
    ensures sofar + [v] + vs == sofar + ([v] + vs)
  {
  }

  lemma {:induction false} ElementsFound(c: seq<byte>, e: nat, depth: nat, strtod: Strtod, sofar: seq<Value>)
    returns (es: seq<Element>)
    requires IsCString(c) && e + 1 < |c| && depth <= 1000 && ParseElements(c, e, depth, strtod, sofar).Some?
    ensures var r := ParseElements(c, e, depth, strtod, sofar).value;
            ElementsFrom(c, e, es, depth, strtod, r.next) && r.value == Arr(sofar + ValuesOf(es, 0, strtod))
    decreases |c| - e, 0
  {
    hide *;
    CText(c);
    ElementStep(c, e, depth, strtod, sofar);
    var p := Skip(c, e + 1);
    var v, q := ParseValue(c, p, depth, strtod).value.value, ParseValue(c, p, depth, strtod).value.next;
    var j := ValueFound(c, p, depth, strtod);
    var x, r := ElementFound(c, e, p, q, j, v, depth, strtod);
    DerivedNesting(c, p, j, v, q, depth, strtod);
    if c[r] == 44 {
      var rest := ElementsFound(c, r, depth, strtod, sofar + [v]);
      es := [x] + rest;
      ElementsCons(c, e, x, r, rest, depth, strtod, ParseElements(c, e, depth, strtod, sofar).value.next);
      ValuesJoin(sofar, v, ValuesOf(rest, 0, strtod));
    } else {
      es := [x];
      OneElement(c, e, x, r, depth, strtod);
    }
  }

  lemma CText(c: seq<byte>)
    requires IsCString(c)
    ensures IsText(c)
  {
  }

  lemma DerivedNesting(c: seq<byte>, at: nat, j: Syntax, v: Value, next: nat, depth: nat, strtod: Strtod)
    requires Derives(c, at, j, v, next, depth, strtod)
    ensures depth + Nesting(v) <= 1000
  {
  }

  lemma EmptyList(c: seq<byte>, at: nat, depth: nat, strtod: Strtod) returns (j: Syntax)
    requires IsCString(c) && at + 1 < |c| && c[at] == 91 && c[Skip(c, at + 1)] == 93 && depth < 1000
    ensures Derives(c, at, j, Arr([]), Skip(c, at + 1) + 1, depth, strtod)
  {
    var gap := Gap(c, at + 1);
    j := List(gap, []);
    OneStands(c, at, 91);
    OneStands(c, at + 1 + |gap|, 93);
    StandsJoin(c, at + 1, gap, [93]);
    StandsJoin(c, at, [91], gap + [93]);
    assert Written(j) == [91] + (gap + [93]);
    assert c[|c| - 1] == 0;
  }

  /** Blanks in front of the first element can be counted to it. */
  lemma GapJoins(c: seq<byte>, p: nat, gap: seq<byte>, before: seq<byte>, rest: seq<byte>)
    requires Stands(c, p, gap) && Stands(c, p + |gap|, before + rest) && Blank(gap) && Blank(before)
    ensures Stands(c, p, (gap + before) + rest) && Blank(gap + before)
  {
    StandsJoin(c, p, gap, before + rest);
    assert gap + (before + rest) == gap + before + rest;
  }

  lemma FullList(c: seq<byte>, at: nat, gap: seq<byte>, es: seq<Element>, depth: nat, strtod: Strtod, next: nat)
    returns (j: Syntax)
    requires at + 1 < |c| && c[at] == 91 && Stands(c, at + 1, gap) && Blank(gap) && next < |c|
    requires ElementsFrom(c, at + |gap|, es, depth + 1, strtod, next)
    ensures Derives(c, at, j, Arr(ValuesOf(es, 0, strtod)), next, depth, strtod)
  {
    var x := es[0].(before := gap + es[0].before);
    var xs := es[0 := x];
    GapJoins(c, at + 1, gap, es[0].before, Elements(es, 0));
    SameElements(es, x, strtod);
    j := List([], xs);
    OneStands(c, at, 91);
    StandsJoin(c, at, [91], x.before + Elements(xs, 0));
    assert Written(j) == [91] + (x.before + Elements(xs, 0));
    assert ElementLawful(x, strtod);
    assert Lawful(j, strtod);
    assert ValueOf(j, strtod) == Arr(ValuesOf(es, 0, strtod));
    hide Stands, Elements, ElementLawful, ItemNesting;
  }

  /** Blanks in front of the first element are no part of the text of the elements. */
  lemma SameElements(es: seq<Element>, x: Element, strtod: Strtod)
    requires es != [] && x.item == es[0].item && x.after == es[0].after
    ensures var xs := es[0 := x];
            Elements(xs, 0) == Elements(es, 0) && ValuesOf(xs, 0, strtod) == ValuesOf(es, 0, strtod)
  {
    var xs := es[0 := x];
    assert ElementWritten(x) == ElementWritten(es[0]) && ElementValue(x, strtod) == ElementValue(es[0], strtod);
    if |es| > 1 {
      SameTail(es, x, 1, strtod);
    }
  }

  lemma {:induction false} SameTail(es: seq<Element>, x: Element, k: nat, strtod: Strtod)
    requires 1 <= k < |es|
    ensures var xs := es[0 := x];
            Elements(xs, k) == Elements(es, k) && ValuesOf(xs, k, strtod) == ValuesOf(es, k, strtod)
    decreases |es| - k
  {
    hide ElementWritten, ElementValue;
    if k + 1 < |es| {
      SameTail(es, x, k + 1, strtod);
    }
  }

  lemma ListStep(c: seq<byte>, at: nat, depth: nat, strtod: Strtod)
    requires IsText(c) && at < |c| && c[at] == 91 && ParseValue(c, at, depth, strtod).Some?
    ensures at + 1 < |c| && depth < 1000
    ensures var first := Skip(c, at + 1);
            ParseValue(c, at, depth, strtod)
            == if c[first] == 93 then Some(Parsed(Arr([]), first + 1)) else ParseElements(c, first - 1, depth + 1, strtod, [])
  {
    NoKeyword(c, at);
    assert c[|c| - 1] == 0;
    hide ParseElements, ParseKeyword, ParseString, NumberText;
  }

  lemma {:induction false} ListFound(c: seq<byte>, at: nat, depth: nat, strtod: Strtod) returns (j: Syntax)
    requires IsCString(c) && at < |c| && c[at] == 91 && depth <= 1000 && ParseValue(c, at, depth, strtod).Some?
    ensures var r := ParseValue(c, at, depth, strtod).value; Derives(c, at, j, r.value, r.next, depth, strtod)
    decreases |c| - at, 1
  {
    hide *;
    CText(c);
    ListStep(c, at, depth, strtod);
    var r, first := ParseValue(c, at, depth, strtod).value, Skip(c, at + 1);
    if c[first] == 93 {
      j := EmptyList(c, at, depth, strtod);
    } else {
      var gap := Gap(c, at + 1);
      var es := ElementsFound(c, first - 1, depth + 1, strtod, []);
      NoValues(ValuesOf(es, 0, strtod));
      j := FullList(c, at, gap, es, depth, strtod, r.next);
    }
  }

  lemma NoValues(vs: seq<Value>)
    ensures [] + vs == vs && vs + [] == vs
  {
  }

  // ----- objects

  lemma KeyFound(c: seq<byte>, e: nat) returns (before: seq<byte>, key: Lit, between: seq<byte>, lead: seq<byte>)
    requires IsCString(c) && e + 1 < |c| && ParseKey(c, e).Some?
    ensures Blank(before) && key.Lawful() && Blank(between) && Blank(lead)
    ensures var w := before + (key.Written() + (between + ([58] + lead)));
            Stands(c, e + 1, w) && ParseKey(c, e) == Some(Literal(Meaning(key.parts), e + 1 + |w|))
  {
    hide ParseString, Lit.Lawful, Lit.Written, Meaning, Skip, Stands;
    before := Gap(c, e + 1);
    var p := e + 1 + |before|;
    key := JsonLiteral.ReadLiteral(c, p);
    var k := p + |key.Written()|;
    between := Gap(c, k);
    var colon := k + |between|;
    assert c[|c| - 1] == 0;
    lead := Gap(c, colon + 1);
    OneStands(c, colon, 58);
    StandsJoin(c, colon, [58], lead);
    StandsJoin(c, k, between, [58] + lead);
    StandsJoin(c, p, key.Written(), between + ([58] + lead));
    StandsJoin(c, e + 1, before, key.Written() + (between + ([58] + lead)));
  }

  lemma MemberStep(c: seq<byte>, e: nat, depth: nat, strtod: Strtod, sofar: seq<Member>)
    requires IsText(c) && e + 1 < |c| && ParseMembers(c, e, depth, strtod, sofar).Some?
    ensures ParseMember(c, e, depth, strtod).Some?
    ensures var x := ParseMember(c, e, depth, strtod).value;
            && e < x.next < |c|
            && var r := Skip(c, x.next);
            && (c[r] == 44 || c[r] == 125) && r >= x.next
            && (c[r] == 44 ==>
                  r + 1 < |c| && ParseMembers(c, e, depth, strtod, sofar) == ParseMembers(c, r, depth, strtod, sofar + [x.member]))
            && (c[r] == 125 ==> ParseMembers(c, e, depth, strtod, sofar) == Some(Parsed(Obj(sofar + [x.member]), r + 1)))
  {
    hide ParseMember, Skip;
    assert |c| > 0 && c[|c| - 1] == 0;
  }

  lemma ValueStep(c: seq<byte>, e: nat, depth: nat, strtod: Strtod)
    requires IsText(c) && e + 1 < |c| && ParseMember(c, e, depth, strtod).Some?
    ensures ParseKey(c, e).Some?
    ensures var key := ParseKey(c, e).value;
            && e < key.next < |c| && ParseValue(c, key.next, depth, strtod).Some?
            && var v := ParseValue(c, key.next, depth, strtod).value;
            ParseMember(c, e, depth, strtod) == Some(Keyed(Member(Ptr(CStr(key.bytes)), v.value), v.next))
  {
    hide ParseKey, ParseValue, CStr;
  }

  lemma FieldBuilt(c: seq<byte>, e: nat, at: nat, q: nat, j: Syntax, v: Value, before: seq<byte>, key: Lit,
                   between: seq<byte>, lead: seq<byte>, depth: nat, strtod: Strtod)
    returns (x: Field, r: nat)
    requires IsCString(c) && Blank(before) && key.Lawful() && Blank(between) && Blank(lead)
    requires var w := before + (key.Written() + (between + ([58] + lead))); Stands(c, e + 1, w) && at == e + 1 + |w|
    requires Derives(c, at, j, v, q, depth, strtod) && q < |c| && c[Skip(c, q)] in {44, 93, 125}
    ensures r == Skip(c, q) && FieldLawful(x, strtod) && MemberOf(x, strtod) == Member(Ptr(CStr(Meaning(key.parts))), v)
    ensures Stands(c, e + 1, x.before + FieldWritten(x)) && r == e + 1 + |x.before + FieldWritten(x)|
  {
    hide Stands, Lit.Lawful, Lit.Written, Meaning, Written, Skip, Lawful, ValueOf, Nesting;
    var after := Gap(c, q);
    r := q + |after|;
    LeftIsNumber(j, strtod);
    NothingLeft(c, q, j, after);
    x := Field(before, key, between, lead, j, after);
    FieldMember(x, strtod);
    StandsJoin(c, at, Written(j), after);
    StandsJoin(c, e + 1, before + KeyWritten(x), Written(j) + after);
    hide KeyWritten;
    assert before + KeyWritten(x) + (Written(j) + after) == before + FieldWritten(x);
  }

  lemma FieldMember(x: Field, strtod: Strtod)
    ensures MemberOf(x, strtod) == Member(Ptr(CStr(Meaning(x.key.parts))), ValueOf(x.item, strtod))
  {
    hide Meaning, ValueOf;
    JsonLiteral.CStrIs(Meaning(x.key.parts));
  }

  lemma {:induction false} FieldFound(c: seq<byte>, e: nat, depth: nat, strtod: Strtod) returns (x: Field, r: nat)
    requires IsCString(c) && e + 1 < |c| && depth <= 1000 && ParseMember(c, e, depth, strtod).Some?
    requires var q := ParseMember(c, e, depth, strtod).value.next; q < |c| && c[Skip(c, q)] in {44, 93, 125}
    ensures var m := ParseMember(c, e, depth, strtod).value;
            && r == Skip(c, m.next) && FieldLawful(x, strtod) && MemberOf(x, strtod) == m.member
            && depth + InMember(m.member) <= 1000
    ensures Stands(c, e + 1, x.before + FieldWritten(x)) && r == e + 1 + |x.before + FieldWritten(x)|
    decreases |c| - e, 0
  {
    hide *;
    CText(c);
    ValueStep(c, e, depth, strtod);
    var before, key, between, lead := KeyFound(c, e);
    var at := ParseKey(c, e).value.next;
    var v, q := ParseValue(c, at, depth, strtod).value.value, ParseValue(c, at, depth, strtod).value.next;
    var j := ValueFound(c, at, depth, strtod);
    DerivedNesting(c, at, j, v, q, depth, strtod);
    x, r := FieldBuilt(c, e, at, q, j, v, before, key, between, lead, depth, strtod);
    InMemberIs(MemberOf(x, strtod));
  }

  lemma InMemberIs(m: Member)
    ensures InMember(m) == Nesting(m.value)
  {
  }

  /** Members that stand behind the byte at `e`. */
  predicate FieldsFrom(c: seq<byte>, e: nat, fs: seq<Field>, depth: nat, strtod: Strtod, next: nat) {
    && fs != [] && (forall i :: 0 <= i < |fs| ==> FieldLawful(fs[i], strtod))
    && Stands(c, e + 1, fs[0].before + Fields(fs, 0)) && next == e + 1 + |fs[0].before + Fields(fs, 0)|
    && depth + MemberNesting(MembersOf(fs, 0, strtod), 0) <= 1000
  }

  lemma OneField(c: seq<byte>, e: nat, x: Field, r: nat, depth: nat, strtod: Strtod)
    requires FieldLawful(x, strtod) && Stands(c, e + 1, x.before + FieldWritten(x))
    requires r == e + 1 + |x.before + FieldWritten(x)| < |c| && c[r] == 125
    requires depth + InMember(MemberOf(x, strtod)) <= 1000
    ensures FieldsFrom(c, e, [x], depth, strtod, r + 1) && MembersOf([x], 0, strtod) == [MemberOf(x, strtod)]
  {
    var fs := [x];
    assert Fields(fs, 0) == FieldWritten(x) + [125];
    assert MembersOf(fs, 0, strtod) == [MemberOf(x, strtod)] + MembersOf(fs, 1, strtod);
    OneStands(c, r, 125);
    StandsJoin(c, e + 1, x.before + FieldWritten(x), [125]);
    assert x.before + FieldWritten(x) + [125] == x.before + (FieldWritten(x) + [125]);
    MemberNestingCons(MemberOf(x, strtod), []);
    NoMembers([MemberOf(x, strtod)]);
    hide Stands, FieldWritten, MemberOf, FieldLawful, InMember;
  }

  lemma {:induction false} FieldsTail(x: Field, fs: seq<Field>, k: nat, strtod: Strtod)
    requires k < |fs|
    ensures Fields([x] + fs, k + 1) == Fields(fs, k) && MembersOf([x] + fs, k + 1, strtod) == MembersOf(fs, k, strtod)
    decreases |fs| - k
  {
    hide FieldWritten, MemberOf;
    assert ([x] + fs)[k + 1] == fs[k];
    if k + 1 < |fs| {
      assert ([x] + fs)[k + 2] == fs[k + 1];
      FieldsTail(x, fs, k + 1, strtod);
    }
  }

  lemma {:induction false} MemberNestingTail(m: Member, ms: seq<Member>, k: nat)
    requires k <= |ms|
    ensures MemberNesting([m] + ms, k + 1) == MemberNesting(ms, k)
    decreases |ms| - k
  {
    if k < |ms| {
      assert ([m] + ms)[k + 1] == ms[k];
      MemberNestingTail(m, ms, k + 1);
    }
  }

  lemma MemberNestingCons(m: Member, ms: seq<Member>)
    ensures MemberNesting([m] + ms, 0) == Max(InMember(m), MemberNesting(ms, 0))
  {
    MemberNestingTail(m, ms, 0);
    hide InMember;
    assert ([m] + ms)[0] == m;
  }

  lemma FieldsCons(c: seq<byte>, e: nat, x: Field, r: nat, fs: seq<Field>, depth: nat, strtod: Strtod, next: nat)
    requires FieldLawful(x, strtod) && Stands(c, e + 1, x.before + FieldWritten(x))
    requires r == e + 1 + |x.before + FieldWritten(x)| < |c| && c[r] == 44
    requires depth + InMember(MemberOf(x, strtod)) <= 1000 && FieldsFrom(c, r, fs, depth, strtod, next)
    ensures FieldsFrom(c, e, [x] + fs, depth, strtod, next)
    ensures MembersOf([x] + fs, 0, strtod) == [MemberOf(x, strtod)] + MembersOf(fs, 0, strtod)
  {
    hide Stands, FieldWritten, MemberOf, FieldLawful, InMember, MemberNesting;
    var xs := [x] + fs;
    FieldsTail(x, fs, 0, strtod);
    assert Fields(xs, 0) == FieldWritten(x) + ([44] + (fs[0].before + Fields(fs, 0)));
    MemberNestingCons(MemberOf(x, strtod), MembersOf(fs, 0, strtod));
    Glued(c, e + 1, x.before, FieldWritten(x), r, fs[0].before + Fields(fs, 0));
    hide Fields;
  }

  lemma NoMembers(ms: seq<Member>)
    ensures [] + ms == ms && ms + [] == ms
  {
  }

  lemma MembersJoined(sofar: seq<Member>, m: Member, ms: seq<Member>)
    ensures sofar + [m] + ms == sofar + ([m] + ms)
  {
  }

  lemma {:induction false} FieldsFound(c: seq<byte>, e: nat, depth: nat, strtod: Strtod, sofar: seq<Member>)
    returns (fs: seq<Field>)
    requires IsCString(c) && e + 1 < |c| && depth <= 1000 && ParseMembers(c, e, depth, strtod, sofar).Some?
    ensures var r := ParseMembers(c, e, depth, strtod, sofar).value;
            FieldsFrom(c, e, fs, depth, strtod, r.next) && r.value == Obj(sofar + MembersOf(fs, 0, strtod))
    decreases |c| - e, 1
  {
    hide *;
    CText(c);
    MemberStep(c, e, depth, strtod, sofar);
    var x, r := FieldFound(c, e, depth, strtod);
    var m := MemberOf(x, strtod);
    if c[r] == 44 {
      var rest := FieldsFound(c, r, depth, strtod, sofar + [m]);
      fs := [x] + rest;
      FieldsCons(c, e, x, r, rest, depth, strtod, ParseMembers(c, e, depth, strtod, sofar).value.next);
      MembersJoined(sofar, m, MembersOf(rest, 0, strtod));
    } else {
      fs := [x];
      OneField(c, e, x, r, depth, strtod);
    }
  }

  lemma EmptyRecord(c: seq<byte>, at: nat, depth: nat, strtod: Strtod) returns (j: Syntax)
    requires IsCString(c) && at + 1 < |c| && c[at] == 123 && c[Skip(c, at + 1)] == 125 && depth < 1000
    ensures Derives(c, at, j, Obj([]), Skip(c, at + 1) + 1, depth, strtod)
  {
    var gap := Gap(c, at + 1);
    j := Record(gap, []);
    OneStands(c, at, 123);
    OneStands(c, at + 1 + |gap|, 125);
    StandsJoin(c, at + 1, gap, [125]);
    StandsJoin(c, at, [123], gap + [125]);
    assert Written(j) == [123] + (gap + [125]);
    assert c[|c| - 1] == 0;
  }

  lemma FullRecord(c: seq<byte>, at: nat, gap: seq<byte>, fs: seq<Field>, depth: nat, strtod: Strtod, next: nat)
    returns (j: Syntax)
    requires at + 1 < |c| && c[at] == 123 && Stands(c, at + 1, gap) && Blank(gap) && next < |c|
    requires FieldsFrom(c, at + |gap|, fs, depth + 1, strtod, next)
    ensures Derives(c, at, j, Obj(MembersOf(fs, 0, strtod)), next, depth, strtod)
  {
    var x := fs[0].(before := gap + fs[0].before);
    var xs := fs[0 := x];
    GapJoins(c, at + 1, gap, fs[0].before, Fields(fs, 0));
    SameFields(fs, x, strtod);
    j := Record([], xs);
    OneStands(c, at, 123);
    StandsJoin(c, at, [123], x.before + Fields(xs, 0));
    assert Written(j) == [123] + (x.before + Fields(xs, 0));
    assert FieldLawful(x, strtod);
    assert Lawful(j, strtod);
    assert ValueOf(j, strtod) == Obj(MembersOf(fs, 0, strtod));
    hide Stands, Fields, FieldLawful, MemberNesting;
  }

  /** Blanks in front of the first member are no part of the text of the members. */
  lemma SameFields(fs: seq<Field>, x: Field, strtod: Strtod)
    requires fs != [] && x == fs[0].(before := x.before)
    ensures var xs := fs[0 := x]; Fields(xs, 0) == Fields(fs, 0) && MembersOf(xs, 0, strtod) == MembersOf(fs, 0, strtod)
  {
    var xs := fs[0 := x];
    assert FieldWritten(x) == FieldWritten(fs[0]) && MemberOf(x, strtod) == MemberOf(fs[0], strtod);
    if |fs| > 1 {
      SameFieldsTail(fs, x, 1, strtod);
    }
  }

  lemma {:induction false} SameFieldsTail(fs: seq<Field>, x: Field, k: nat, strtod: Strtod)
    requires 1 <= k < |fs|
    ensures var xs := fs[0 := x]; Fields(xs, k) == Fields(fs, k) && MembersOf(xs, k, strtod) == MembersOf(fs, k, strtod)
    decreases |fs| - k
  {
    hide FieldWritten, MemberOf;
    if k + 1 < |fs| {
      SameFieldsTail(fs, x, k + 1, strtod);
    }
  }

  lemma RecordStep(c: seq<byte>, at: nat, depth: nat, strtod: Strtod)
    requires IsText(c) && at < |c| && c[at] == 123 && ParseValue(c, at, depth, strtod).Some?
    ensures at + 1 < |c| && depth < 1000
    ensures var first := Skip(c, at + 1);
            ParseValue(c, at, depth, strtod)
            == if c[first] == 125 then Some(Parsed(Obj([]), first + 1)) else ParseMembers(c, first - 1, depth + 1, strtod, [])
  {
    NoKeyword(c, at);
    assert c[|c| - 1] == 0;
    hide ParseMembers, ParseKeyword, ParseString, NumberText;
  }

  lemma {:induction false} RecordFound(c: seq<byte>, at: nat, depth: nat, strtod: Strtod) returns (j: Syntax)
    requires IsCString(c) && at < |c| && c[at] == 123 && depth <= 1000 && ParseValue(c, at, depth, strtod).Some?
    ensures var r := ParseValue(c, at, depth, strtod).value; Derives(c, at, j, r.value, r.next, depth, strtod)
    decreases |c| - at, 2
  {
    hide *;
    CText(c);
    RecordStep(c, at, depth, strtod);
    var r, first := ParseValue(c, at, depth, strtod).value, Skip(c, at + 1);
    if c[first] == 125 {
      j := EmptyRecord(c, at, depth, strtod);
    } else {
      var gap := Gap(c, at + 1);
      var fs := FieldsFound(c, first - 1, depth + 1, strtod, []);
      NoMembers(MembersOf(fs, 0, strtod));
      j := FullRecord(c, at, gap, fs, depth, strtod, r.next);
    }
  }

  /** What is read as a value is a value of the grammar. */
  lemma {:induction false} ValueFound(c: seq<byte>, at: nat, depth: nat, strtod: Strtod) returns (j: Syntax)
    requires IsCString(c) && at < |c| && depth <= 1000 && ParseValue(c, at, depth, strtod).Some?
    ensures var r := ParseValue(c, at, depth, strtod).value; Derives(c, at, j, r.value, r.next, depth, strtod)
    decreases |c| - at, 3
  {
    hide *;
    if c[at] == 91 {
      j := ListFound(c, at, depth, strtod);
    } else if c[at] == 123 {
      j := RecordFound(c, at, depth, strtod);
    } else {
      j := LeafFound(c, at, depth, strtod);
    }
  }
}
