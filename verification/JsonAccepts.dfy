/** The parser reads every text of the grammar, unless it is nested too deeply. */
module JsonAccepts {
  import opened Json
  import opened JsonSyntax
  import opened JsonGrammar
  import opened JsonPlaces
  import JsonLiteral

  /** What parsing `v` should give. */
  function Expected(v: Value, next: nat, depth: nat): Option<Parsed> {
    if depth + Nesting(v) <= 1000 then Some(Parsed(v, next)) else None
  }

  /** What is behind a value that ends at `q`. */
  predicate Behind(c: seq<byte>, q: nat, j: Syntax) {
    && q < |c|
    && (j.Numeral? ==>
          && Stands(c, q, j.left) && q + |j.left| < |c|
          && (|j.taken + j.left| == 63 || !IsNumberByte(c[q + |j.left|])))
  }

  /** A value starts with neither a blank nor a closing bracket. */
  lemma WrittenStarts(j: Syntax, strtod: Strtod)
    requires Lawful(j, strtod)
    ensures Written(j) != [] && 32 < Written(j)[0] < 0x80 && Written(j)[0] != 93 && Written(j)[0] != 125
  {
  }

  lemma ValueStarts(c: seq<byte>, at: nat, j: Syntax, strtod: Strtod)
    requires Lawful(j, strtod) && Stands(c, at, Written(j))
    ensures at < |c| && 32 < c[at] < 0x80 && c[at] != 93 && c[at] != 125
  {
    WrittenStarts(j, strtod);
    ByteAt(c, at, Written(j), 0);
  }

  // ----- keywords

  lemma NotWord(c: seq<byte>, at: nat, word: seq<byte>)
    requires at < |c| && word != [] && c[at] != word[0]
    ensures !Stands(c, at, word)
  {
    assert Nth(word, 0) == word[0];
  }

  /** Nothing that starts with another letter is a keyword. */
  lemma NoKeyword(c: seq<byte>, at: nat)
    requires IsText(c) && at < |c| && c[at] != 110 && c[at] != 102 && c[at] != 116
    ensures ParseKeyword(c, at) == None
  {
    NotWord(c, at, NULL_TEXT);
    NotWord(c, at, FALSE_TEXT);
    NotWord(c, at, TRUE_TEXT);
  }

  lemma KeywordReads(c: seq<byte>, at: nat, v: Value, depth: nat, strtod: Strtod)
    requires IsText(c) && (v == Null || v == False || v == True) && Stands(c, at, Written(Keyword(v)))
    ensures at < |c| && ParseValue(c, at, depth, strtod) == Some(Parsed(v, at + |Written(Keyword(v))|))
  {
    ByteAt(c, at, Written(Keyword(v)), 0);
    if v != Null {
      NotWord(c, at, NULL_TEXT);
    }
    if v == True {
      NotWord(c, at, FALSE_TEXT);
    }
    assert ParseKeyword(c, at) == Some(Parsed(v, at + |Written(Keyword(v))|));
  }

  // ----- numbers

  lemma {:induction false} SpanIs(c: seq<byte>, at: nat, n: nat, limit: nat)
    requires n <= limit && at + n <= |c| && forall i :: at <= i < at + n ==> IsNumberByte(c[i])
    requires n == limit || (at + n < |c| && !IsNumberByte(c[at + n]))
    ensures NumberSpan(c, at, limit) == n
    decreases n
  {
    if n > 0 {
      SpanIs(c, at + 1, n - 1, limit - 1);
    }
  }

  lemma NumberTextIs(c: seq<byte>, at: nat, number: seq<byte>)
    requires Stands(c, at, number) && number != [] && |number| <= 63 && AllNumberBytes(number) && at + |number| < |c|
    requires |number| == 63 || !IsNumberByte(c[at + |number|])
    ensures NumberText(c, at) == number
  {
    forall i | at <= i < at + |number| ensures IsNumberByte(c[i]) {
      ByteAt(c, at, number, i - at);
    }
    SpanIs(c, at, |number|, 63);
    StandsSlice(c, at, number);
  }

  lemma NumeralReads(c: seq<byte>, at: nat, taken: seq<byte>, left: seq<byte>, depth: nat, strtod: Strtod)
    requires IsText(c) && Lawful(Numeral(taken, left), strtod) && Stands(c, at, taken)
    requires Behind(c, at + |taken|, Numeral(taken, left))
    ensures ParseValue(c, at, depth, strtod) == Some(Parsed(Number(strtod(taken + left).token), at + |taken|))
  {
    StandsJoin(c, at, taken, left);
    ByteAt(c, at, taken, 0);
    NumberTextIs(c, at, taken + left);
    NumberAt(c, at, depth, strtod);
    hide ParseValue, Stands, AllNumberBytes, NumberText;
  }

  lemma NumberAt(c: seq<byte>, at: nat, depth: nat, strtod: Strtod)
    requires IsText(c) && at < |c| && (c[at] == 45 || 48 <= c[at] <= 57)
    ensures ParseValue(c, at, depth, strtod) == ParseNumber(c, at, strtod)
  {
    hide ParseNumber, ParseKeyword;
    NoKeyword(c, at);
  }

  /** A number in the form of RFC 8259 that the conversion takes whole is read whole, whatever byte that is none of
      a number follows. */
  lemma NumberFormReads(c: seq<byte>, at: nat, form: NumberForm, depth: nat, strtod: Strtod)
    requires IsText(c) && form.Lawful() && |form.Written()| <= 63 && strtod(form.Written()).length == |form.Written()|
    requires Stands(c, at, form.Written())
    requires var q := at + |form.Written()|; q < |c| && !IsNumberByte(c[q])
    ensures ParseValue(c, at, depth, strtod)
            == Some(Parsed(Number(strtod(form.Written()).token), at + |form.Written()|))
  {
    hide ParseValue, Stands, AllNumberBytes, IsNumberByte, NumberForm.Lawful, NumberForm.Written;
    var s := form.Written();
    FormIsNumeral(form);
    assert s + [] == s;
    StandsEmpty(c, at + |s|);
    NumeralReads(c, at, s, [], depth, strtod);
  }

  lemma FormIsNumeral(form: NumberForm)
    requires form.Lawful()
    ensures var s := form.Written(); s != [] && (s[0] == 45 || 48 <= s[0] <= 57) && AllNumberBytes(s)
  {
    var s, w, f := form.Written(), |form.minus|, |form.minus + form.whole|;
    forall i | 0 <= i < |s| ensures IsNumberByte(s[i]) {
      if i < w {
        assert s[i] == form.minus[i];
      } else if i < f {
        assert s[i] == form.whole[i - w];
      } else if i < f + |form.fraction| {
        assert s[i] == form.fraction[i - f];
        assert i > f ==> form.fraction[i - f] == form.fraction[1..][i - f - 1];
      } else {
        var k := i - f - |form.fraction|;
        assert s[i] == form.exponent[k];
        assert k > 0 ==> form.exponent[k] == form.exponent[1..][k - 1];
        assert k > 1 ==> form.exponent[k] == form.exponent[2..][k - 2];
      }
    }
  }

  // ----- strings

  lemma QuoteReads(c: seq<byte>, at: nat, lit: Lit, depth: nat, strtod: Strtod)
    requires IsText(c) && lit.Lawful() && Stands(c, at, lit.Written())
    ensures at < |c| && ParseValue(c, at, depth, strtod) == Some(Parsed(Str(Ptr(lit.Chars())), at + |lit.Written()|))
  {
    hide Lit.Lawful, Lit.Written, Stands, Meaning;
    JsonLiteral.LiteralReads(c, at, lit);
    NoKeyword(c, at);
    JsonLiteral.CStrIs(Meaning(lit.parts));
  }

  // ----- arrays

  lemma BlankStands(c: seq<byte>, p: nat, s: seq<byte>)
    requires Stands(c, p, s) && Blank(s)
    ensures forall i :: p <= i < p + |s| ==> 1 <= c[i] <= 32
  {
    forall i | p <= i < p + |s| ensures 1 <= c[i] <= 32 {
      ByteAt(c, p, s, i - p);
    }
  }

  /** Blanks are skipped up to a byte that is none. */
  lemma BlankSkipped(c: seq<byte>, p: nat, s: seq<byte>)
    requires IsText(c) && Stands(c, p, s) && Blank(s) && p + |s| < |c| && c[p + |s|] > 32
    ensures Skip(c, p) == p + |s|
  {
    BlankStands(c, p, s);
    Skips(c, p, p + |s|);
  }

  /** Behind a whole value come blanks or a byte that is none of a number. */
  lemma WholeBehind(c: seq<byte>, q: nat, j: Syntax, after: seq<byte>)
    requires Whole(j) && Blank(after) && Stands(c, q, after) && q + |after| < |c|
    requires c[q + |after|] in {44, 93, 125}
    ensures Behind(c, q, j)
  {
    BlankStands(c, q, after);
    assert after == [] || 1 <= c[q] <= 32;
  }

  /** Element `k` and what is behind it. */
  lemma ElementStands(c: seq<byte>, p: nat, es: seq<Element>, k: nat, strtod: Strtod) returns (q: nat, r: nat, next: nat)
    requires IsText(c) && k < |es| && Stands(c, p, Elements(es, k)) && ElementLawful(es[k], strtod)
    requires k + 1 < |es| ==> ElementLawful(es[k + 1], strtod)
    ensures Stands(c, p, Written(es[k].item)) && q == p + |Written(es[k].item)| < |c| && Behind(c, q, es[k].item)
    ensures Skip(c, q) == r < |c|
    ensures k + 1 == |es| ==> c[r] == 93 && r + 1 == p + |Elements(es, k)|
    ensures k + 1 < |es| ==>
              && c[r] == 44 && r + 1 < |c| && Skip(c, r + 1) == next && Stands(c, next, Elements(es, k + 1))
              && next + |Elements(es, k + 1)| == p + |Elements(es, k)|
  {
    var w, after := Written(es[k].item), es[k].after;
    var tail := if k + 1 == |es| then [93] else [44] + (es[k + 1].before + Elements(es, k + 1));
    assert Elements(es, k) == w + after + tail;
    q, next := p + |w|, 0;
    r := q + |after|;
    hide Elements, Written, Stands;
    StandsConcat(c, p, w + after, tail);
    StandsConcat(c, p, w, after);
    ByteAt(c, r, tail, 0);
    BlankSkipped(c, q, after);
    WholeBehind(c, q, es[k].item, after);
    if k + 1 < |es| {
      next := NextElement(c, r, es, k, strtod);
    }
  }

  lemma NextElement(c: seq<byte>, r: nat, es: seq<Element>, k: nat, strtod: Strtod) returns (next: nat)
    requires IsText(c) && k + 1 < |es| && ElementLawful(es[k + 1], strtod)
    requires Stands(c, r, [44] + (es[k + 1].before + Elements(es, k + 1)))
    ensures r + 1 < |c| && Skip(c, r + 1) == next && Stands(c, next, Elements(es, k + 1))
    ensures next == r + 1 + |es[k + 1].before|
  {
    var before, rest := es[k + 1].before, Elements(es, k + 1);
    StandsConcat(c, r, [44], before + rest);
    StandsConcat(c, r + 1, before, rest);
    next := r + 1 + |before|;
    ElementsStart(es, k + 1, strtod);
    ByteAt(c, next, rest, 0);
    BlankSkipped(c, r + 1, before);
  }

  lemma ElementsStart(es: seq<Element>, k: nat, strtod: Strtod)
    requires k < |es| && ElementLawful(es[k], strtod)
    ensures var s := Elements(es, k); s != [] && 32 < s[0] && s[0] != 93
  {
    WrittenStarts(es[k].item, strtod);
  }

  lemma AllValues(vs: seq<Value>, k: nat)
    requires k < |vs|
    ensures vs[..k] + [vs[k]] == vs[..k + 1] && (k + 1 == |vs| ==> vs[..k + 1] == vs)
  {
  }

  lemma {:induction false} ValueAt(es: seq<Element>, from: nat, k: nat, strtod: Strtod)
    requires from <= k < |es|
    ensures ValuesOf(es, from, strtod)[k - from] == ValueOf(es[k].item, strtod)
    decreases k - from
  {
    if from < k {
      ValueAt(es, from + 1, k, strtod);
    }
  }

  function ExpectedItems(vs: seq<Value>, k: nat, next: nat, depth: nat): Option<Parsed>
    requires k <= |vs|
  {
    if depth + ItemNesting(vs, k) <= 1000 then Some(Parsed(Arr(vs), next)) else None
  }

  /** One element more has been read. */
  lemma ElementTaken(c: seq<byte>, e: nat, p: nat, q: nat, r: nat, vs: seq<Value>, k: nat, depth: nat, strtod: Strtod)
    requires IsText(c) && k < |vs| && e + 1 < |c| && Skip(c, e + 1) == p && q < |c| && Skip(c, q) == r
    requires ParseValue(c, p, depth, strtod) == Expected(vs[k], q, depth)
    ensures ParseElements(c, e, depth, strtod, vs[..k])
            == if depth + Nesting(vs[k]) <= 1000 then AfterElement(c, r, depth, strtod, vs[..k + 1]) else None
  {
    AllValues(vs, k);
    hide ParseValue, Nesting, AfterElement;
  }

  /** From one element to those behind it. */
  lemma ElementsJoin(c: seq<byte>, e: nat, r: nat, vs: seq<Value>, k: nat, strtod: Strtod, depth: nat, end: nat)
    requires IsText(c) && k < |vs| && e + 1 < |c| && r < |c| && depth <= 1000
    requires ParseElements(c, e, depth, strtod, vs[..k])
             == if depth + Nesting(vs[k]) <= 1000 then AfterElement(c, r, depth, strtod, vs[..k + 1]) else None
    requires k + 1 == |vs| ==> c[r] == 93 && r + 1 == end
    requires k + 1 < |vs| ==>
               c[r] == 44 && r + 1 < |c|
               && ParseElements(c, r, depth, strtod, vs[..k + 1]) == ExpectedItems(vs, k + 1, end, depth)
    ensures ParseElements(c, e, depth, strtod, vs[..k]) == ExpectedItems(vs, k, end, depth)
  {
    AllValues(vs, k);
    assert k + 1 == |vs| ==> ItemNesting(vs, k + 1) == 0;
    hide ParseValue, Nesting;
  }

  lemma {:induction false} ElementsRead(c: seq<byte>, e: nat, p: nat, es: seq<Element>, k: nat, strtod: Strtod, depth: nat)
    requires IsText(c) && k < |es| && depth <= 1000 && forall i :: 0 <= i < |es| ==> ElementLawful(es[i], strtod)
    requires e + 1 < |c| && Skip(c, e + 1) == p && Stands(c, p, Elements(es, k))
    ensures var vs := ValuesOf(es, 0, strtod);
            ParseElements(c, e, depth, strtod, vs[..k]) == ExpectedItems(vs, k, p + |Elements(es, k)|, depth)
    decreases es, 0, |es| - k
  {
    hide *;
    var vs := ValuesOf(es, 0, strtod);
    var q, r, next := ElementStands(c, p, es, k, strtod);
    ElementParts(es[k], strtod);
    ValueReads(c, p, es[k].item, strtod, depth);
    ValueAt(es, 0, k, strtod);
    ElementTaken(c, e, p, q, r, vs, k, depth, strtod);
    if k + 1 < |es| {
      ElementsRead(c, r, next, es, k + 1, strtod, depth);
    }
    ElementsJoin(c, e, r, vs, k, strtod, depth, p + |Elements(es, k)|);
  }

  lemma ElementParts(x: Element, strtod: Strtod)
    requires ElementLawful(x, strtod)
    ensures Lawful(x.item, strtod)
  {
  }

  lemma ArrayEntered(c: seq<byte>, at: nat, first: nat, depth: nat, strtod: Strtod)
    requires IsText(c) && at + 1 < |c| && c[at] == 91 && Skip(c, at + 1) == first
    ensures ParseValue(c, at, depth, strtod)
            == if depth >= 1000 then None
               else if c[first] == 93 then Some(Parsed(Arr([]), first + 1))
               else ParseElements(c, first - 1, depth + 1, strtod, [])
  {
    NoKeyword(c, at);
  }

  lemma SkipStays(c: seq<byte>, p: nat)
    requires IsText(c) && p < |c| && c[p] > 32
    ensures Skip(c, p) == p
  {
  }

  /** What is behind an opening bracket of an array. */
  lemma ListOpens(c: seq<byte>, at: nat, gap: seq<byte>, es: seq<Element>, strtod: Strtod) returns (first: nat)
    requires IsText(c) && Lawful(List(gap, es), strtod) && Stands(c, at, Written(List(gap, es)))
    ensures at + 1 < |c| && c[at] == 91 && Skip(c, at + 1) == first && (c[first] == 93 <==> es == []) && c[first] > 32
    ensures es == [] ==> first + 1 == at + |Written(List(gap, es))|
    ensures es != [] ==> Stands(c, first, Elements(es, 0)) && first + |Elements(es, 0)| == at + |Written(List(gap, es))|
  {
    if es == [] {
      first := Opens(c, at, 91, gap, [93]);
    } else {
      ElementsStart(es, 0, strtod);
      first := Opens(c, at, 91, es[0].before, Elements(es, 0));
    }
  }

  lemma Opens(c: seq<byte>, at: nat, bracket: byte, blank: seq<byte>, rest: seq<byte>) returns (first: nat)
    requires IsText(c) && Stands(c, at, [bracket] + (blank + rest)) && Blank(blank) && rest != [] && rest[0] > 32
    ensures at + 1 < |c| && c[at] == bracket && first == at + 1 + |blank| && Skip(c, at + 1) == first < |c|
    ensures Stands(c, first, rest) && c[first] == rest[0]
  {
    hide Stands, Skip, Blank;
    first := at + 1 + |blank|;
    StandsConcat(c, at, [bracket], blank + rest);
    StandsConcat(c, at + 1, blank, rest);
    ByteAt(c, at, [bracket], 0);
    ByteAt(c, first, rest, 0);
    BlankSkipped(c, at + 1, blank);
  }

  lemma ExpectedArray(vs: seq<Value>, next: nat, depth: nat)
    requires depth <= 1000
    ensures Expected(Arr(vs), next, depth) == if depth == 1000 then None else ExpectedItems(vs, 0, next, depth + 1)
    ensures vs == [] && depth < 1000 ==> Expected(Arr(vs), next, depth) == Some(Parsed(Arr([]), next))
  {
  }

  lemma ListValue(gap: seq<byte>, es: seq<Element>, strtod: Strtod)
    ensures ValueOf(List(gap, es), strtod) == Arr(ValuesOf(es, 0, strtod))
    ensures ValuesOf(es, 0, strtod)[..0] == [] && (es == [] ==> ValuesOf(es, 0, strtod) == [])
    ensures Lawful(List(gap, es), strtod) ==> forall i :: 0 <= i < |es| ==> ElementLawful(es[i], strtod)
  {
  }

  lemma {:induction false} ListReads(c: seq<byte>, at: nat, gap: seq<byte>, es: seq<Element>, strtod: Strtod, depth: nat)
    requires IsText(c) && Lawful(List(gap, es), strtod) && depth <= 1000 && Stands(c, at, Written(List(gap, es)))
    ensures ParseValue(c, at, depth, strtod)
            == Expected(ValueOf(List(gap, es), strtod), at + |Written(List(gap, es))|, depth)
    decreases es, 1
  {
    hide *;
    var vs := ValuesOf(es, 0, strtod);
    ListValue(gap, es, strtod);
    ExpectedArray(vs, at + |Written(List(gap, es))|, depth);
    var first := ListOpens(c, at, gap, es, strtod);
    ArrayEntered(c, at, first, depth, strtod);
    if depth < 1000 && es != [] {
      SkipStays(c, first);
      ElementsRead(c, first - 1, first, es, 0, strtod, depth + 1);
    }
  }

  // ----- objects

  /** Member `k` and what is behind it. */
  lemma FieldStands(c: seq<byte>, p: nat, fs: seq<Field>, k: nat, strtod: Strtod)
    returns (at: nat, q: nat, r: nat, next: nat)
    requires IsText(c) && k < |fs| && Stands(c, p, Fields(fs, k)) && FieldLawful(fs[k], strtod)
    requires k + 1 < |fs| ==> FieldLawful(fs[k + 1], strtod)
    ensures Stands(c, p, KeyWritten(fs[k])) && at == p + |KeyWritten(fs[k])|
    ensures Stands(c, at, Written(fs[k].item)) && q == at + |Written(fs[k].item)| < |c| && Behind(c, q, fs[k].item)
    ensures Skip(c, q) == r < |c|
    ensures k + 1 == |fs| ==> c[r] == 125 && r + 1 == p + |Fields(fs, k)|
    ensures k + 1 < |fs| ==>
              && c[r] == 44 && r + 1 < |c| && Skip(c, r + 1) == next && Stands(c, next, Fields(fs, k + 1))
              && next + |Fields(fs, k + 1)| == p + |Fields(fs, k)|
  {
    var key, w, after := KeyWritten(fs[k]), Written(fs[k].item), fs[k].after;
    var tail := if k + 1 == |fs| then [125] else [44] + (fs[k + 1].before + Fields(fs, k + 1));
    assert Fields(fs, k) == key + (w + after) + tail;
    at, next := p + |key|, 0;
    q := at + |w|;
    r := q + |after|;
    hide Fields, Written, Stands, KeyWritten;
    StandsConcat(c, p, key + (w + after), tail);
    StandsConcat(c, p, key, w + after);
    StandsConcat(c, at, w, after);
    ByteAt(c, r, tail, 0);
    BlankSkipped(c, q, after);
    WholeBehind(c, q, fs[k].item, after);
    if k + 1 < |fs| {
      next := NextField(c, r, fs, k, strtod);
    }
  }

  lemma NextField(c: seq<byte>, r: nat, fs: seq<Field>, k: nat, strtod: Strtod) returns (next: nat)
    requires IsText(c) && k + 1 < |fs| && FieldLawful(fs[k + 1], strtod)
    requires Stands(c, r, [44] + (fs[k + 1].before + Fields(fs, k + 1)))
    ensures r + 1 < |c| && Skip(c, r + 1) == next && Stands(c, next, Fields(fs, k + 1))
    ensures next == r + 1 + |fs[k + 1].before|
  {
    FieldsStart(fs, k + 1);
    next := Opens(c, r, 44, fs[k + 1].before, Fields(fs, k + 1));
  }

  lemma FieldsStart(fs: seq<Field>, k: nat)
    requires k < |fs|
    ensures var s := Fields(fs, k); s != [] && s[0] == 34
  {
    assert FieldWritten(fs[k])[0] == KeyWritten(fs[k])[0] == 34;
  }

  /** A key, the colon behind it, and the blanks around that. */
  lemma KeyReads(c: seq<byte>, e: nat, p: nat, x: Field, at: nat, strtod: Strtod)
    requires IsText(c) && FieldLawful(x, strtod) && Stands(c, p, KeyWritten(x)) && at == p + |KeyWritten(x)| < |c|
    requires c[at] > 32 && e + 1 < |c| && Skip(c, e + 1) == p
    ensures ParseKey(c, e) == Some(Literal(Meaning(x.key.parts), at))
  {
    hide Lit.Lawful, Lit.Written, Stands, Meaning, Skip, Lawful;
    var w, colon := x.key.Written(), p + |x.key.Written()| + |x.between|;
    StandsConcat(c, p, w, x.between + ([58] + x.lead));
    StandsConcat(c, p + |w|, x.between, [58] + x.lead);
    StandsConcat(c, colon, [58], x.lead);
    ByteAt(c, colon, [58], 0);
    JsonLiteral.LiteralReads(c, p, x.key);
    BlankSkipped(c, p + |w|, x.between);
    BlankSkipped(c, colon + 1, x.lead);
  }

  lemma MemberParsed(c: seq<byte>, e: nat, at: nat, q: nat, x: Field, depth: nat, strtod: Strtod)
    requires IsText(c) && e + 1 < |c| && at < |c| && q < |c|
    requires ParseKey(c, e) == Some(Literal(Meaning(x.key.parts), at))
    requires ParseValue(c, at, depth, strtod) == Expected(ValueOf(x.item, strtod), q, depth)
    ensures var m := MemberOf(x, strtod);
            ParseMember(c, e, depth, strtod) == if depth + InMember(m) <= 1000 then Some(Keyed(m, q)) else None
  {
    JsonLiteral.CStrIs(Meaning(x.key.parts));
    hide ParseKey, ParseValue, Nesting, Meaning, ValueOf;
  }

  lemma {:induction false} FieldReads(c: seq<byte>, e: nat, p: nat, x: Field, at: nat, q: nat, strtod: Strtod, depth: nat)
    requires IsText(c) && FieldLawful(x, strtod) && depth <= 1000
    requires e + 1 < |c| && Skip(c, e + 1) == p && Stands(c, p, KeyWritten(x)) && at == p + |KeyWritten(x)|
    requires Stands(c, at, Written(x.item)) && q == at + |Written(x.item)| < |c| && Behind(c, q, x.item)
    ensures var m := MemberOf(x, strtod);
            ParseMember(c, e, depth, strtod) == if depth + InMember(m) <= 1000 then Some(Keyed(m, q)) else None
    decreases x, 3
  {
    hide *;
    FieldParts(x, strtod);
    ValueStarts(c, at, x.item, strtod);
    KeyReads(c, e, p, x, at, strtod);
    ValueReads(c, at, x.item, strtod, depth);
    MemberParsed(c, e, at, q, x, depth, strtod);
  }

  lemma FieldParts(x: Field, strtod: Strtod)
    requires FieldLawful(x, strtod)
    ensures Lawful(x.item, strtod)
  {
  }

  lemma AllMembers(ms: seq<Member>, k: nat)
    requires k < |ms|
    ensures ms[..k] + [ms[k]] == ms[..k + 1] && (k + 1 == |ms| ==> ms[..k + 1] == ms)
  {
  }

  lemma {:induction false} MemberAt(fs: seq<Field>, from: nat, k: nat, strtod: Strtod)
    requires from <= k < |fs|
    ensures MembersOf(fs, from, strtod)[k - from] == MemberOf(fs[k], strtod)
    decreases k - from
  {
    if from < k {
      MemberAt(fs, from + 1, k, strtod);
    }
  }

  function ExpectedMembers(ms: seq<Member>, k: nat, next: nat, depth: nat): Option<Parsed>
    requires k <= |ms|
  {
    if depth + MemberNesting(ms, k) <= 1000 then Some(Parsed(Obj(ms), next)) else None
  }

  /** One member more has been read. */
  lemma MemberTaken(c: seq<byte>, e: nat, q: nat, r: nat, ms: seq<Member>, k: nat, depth: nat, strtod: Strtod)
    requires IsText(c) && k < |ms| && e + 1 < |c| && q < |c| && Skip(c, q) == r
    requires ParseMember(c, e, depth, strtod) == if depth + InMember(ms[k]) <= 1000 then Some(Keyed(ms[k], q)) else None
    ensures ParseMembers(c, e, depth, strtod, ms[..k])
            == if depth + InMember(ms[k]) <= 1000 then AfterMember(c, r, depth, strtod, ms[..k + 1]) else None
  {
    AllMembers(ms, k);
    hide ParseMember, InMember, AfterMember;
  }

  /** From one member to those behind it. */
  lemma MembersJoin(c: seq<byte>, e: nat, r: nat, ms: seq<Member>, k: nat, strtod: Strtod, depth: nat, end: nat)
    requires IsText(c) && k < |ms| && e + 1 < |c| && r < |c| && depth <= 1000
    requires ParseMembers(c, e, depth, strtod, ms[..k])
             == if depth + InMember(ms[k]) <= 1000 then AfterMember(c, r, depth, strtod, ms[..k + 1]) else None
    requires k + 1 == |ms| ==> c[r] == 125 && r + 1 == end
    requires k + 1 < |ms| ==>
               c[r] == 44 && r + 1 < |c|
               && ParseMembers(c, r, depth, strtod, ms[..k + 1]) == ExpectedMembers(ms, k + 1, end, depth)
    ensures ParseMembers(c, e, depth, strtod, ms[..k]) == ExpectedMembers(ms, k, end, depth)
  {
    AllMembers(ms, k);
    assert k + 1 == |ms| ==> MemberNesting(ms, k + 1) == 0;
    hide ParseMember, InMember;
  }

  lemma {:induction false} FieldsRead(c: seq<byte>, e: nat, p: nat, fs: seq<Field>, k: nat, strtod: Strtod, depth: nat)
    requires IsText(c) && k < |fs| && depth <= 1000 && forall i :: 0 <= i < |fs| ==> FieldLawful(fs[i], strtod)
    requires e + 1 < |c| && Skip(c, e + 1) == p && Stands(c, p, Fields(fs, k))
    ensures var ms := MembersOf(fs, 0, strtod);
            ParseMembers(c, e, depth, strtod, ms[..k]) == ExpectedMembers(ms, k, p + |Fields(fs, k)|, depth)
    decreases fs, 0, |fs| - k
  {
    hide *;
    var ms := MembersOf(fs, 0, strtod);
    var at, q, r, next := FieldStands(c, p, fs, k, strtod);
    FieldReads(c, e, p, fs[k], at, q, strtod, depth);
    MemberAt(fs, 0, k, strtod);
    MemberTaken(c, e, q, r, ms, k, depth, strtod);
    if k + 1 < |fs| {
      FieldsRead(c, r, next, fs, k + 1, strtod, depth);
    }
    MembersJoin(c, e, r, ms, k, strtod, depth, p + |Fields(fs, k)|);
  }

  lemma ObjectEntered(c: seq<byte>, at: nat, first: nat, depth: nat, strtod: Strtod)
    requires IsText(c) && at + 1 < |c| && c[at] == 123 && Skip(c, at + 1) == first
    ensures ParseValue(c, at, depth, strtod)
            == if depth >= 1000 then None
               else if c[first] == 125 then Some(Parsed(Obj([]), first + 1))
               else ParseMembers(c, first - 1, depth + 1, strtod, [])
  {
    NoKeyword(c, at);
  }

  lemma RecordOpens(c: seq<byte>, at: nat, gap: seq<byte>, fs: seq<Field>, strtod: Strtod) returns (first: nat)
    requires IsText(c) && Lawful(Record(gap, fs), strtod) && Stands(c, at, Written(Record(gap, fs)))
    ensures at + 1 < |c| && c[at] == 123 && Skip(c, at + 1) == first && (c[first] == 125 <==> fs == []) && c[first] > 32
    ensures fs == [] ==> first + 1 == at + |Written(Record(gap, fs))|
    ensures fs != [] ==> Stands(c, first, Fields(fs, 0)) && first + |Fields(fs, 0)| == at + |Written(Record(gap, fs))|
  {
    if fs == [] {
      first := Opens(c, at, 123, gap, [125]);
    } else {
      FieldsStart(fs, 0);
      first := Opens(c, at, 123, fs[0].before, Fields(fs, 0));
    }
  }

  lemma ExpectedObject(ms: seq<Member>, next: nat, depth: nat)
    requires depth <= 1000
    ensures Expected(Obj(ms), next, depth) == if depth == 1000 then None else ExpectedMembers(ms, 0, next, depth + 1)
    ensures ms == [] && depth < 1000 ==> Expected(Obj(ms), next, depth) == Some(Parsed(Obj([]), next))
  {
  }

  lemma RecordValue(gap: seq<byte>, fs: seq<Field>, strtod: Strtod)
    ensures ValueOf(Record(gap, fs), strtod) == Obj(MembersOf(fs, 0, strtod))
    ensures MembersOf(fs, 0, strtod)[..0] == [] && (fs == [] ==> MembersOf(fs, 0, strtod) == [])
    ensures Lawful(Record(gap, fs), strtod) ==> forall i :: 0 <= i < |fs| ==> FieldLawful(fs[i], strtod)
  {
  }

  lemma {:induction false} RecordReads(c: seq<byte>, at: nat, gap: seq<byte>, fs: seq<Field>, strtod: Strtod, depth: nat)
    requires IsText(c) && Lawful(Record(gap, fs), strtod) && depth <= 1000 && Stands(c, at, Written(Record(gap, fs)))
    ensures ParseValue(c, at, depth, strtod)
            == Expected(ValueOf(Record(gap, fs), strtod), at + |Written(Record(gap, fs))|, depth)
    decreases fs, 1
  {
    hide *;
    var ms := MembersOf(fs, 0, strtod);
    RecordValue(gap, fs, strtod);
    ExpectedObject(ms, at + |Written(Record(gap, fs))|, depth);
    var first := RecordOpens(c, at, gap, fs, strtod);
    ObjectEntered(c, at, first, depth, strtod);
    if depth < 1000 && fs != [] {
      SkipStays(c, first);
      FieldsRead(c, first - 1, first, fs, 0, strtod, depth + 1);
    }
  }

  // ----- values

  lemma LeafExpected(j: Syntax, strtod: Strtod, next: nat, depth: nat)
    requires !j.List? && !j.Record? && Lawful(j, strtod) && depth <= 1000
    ensures Expected(ValueOf(j, strtod), next, depth) == Some(Parsed(ValueOf(j, strtod), next))
  {
  }

  /** A value of the grammar is read, and parsing stops behind it, if nothing is nested too deeply; else it fails. */
  lemma {:induction false} ValueReads(c: seq<byte>, at: nat, j: Syntax, strtod: Strtod, depth: nat)
    requires IsText(c) && Lawful(j, strtod) && depth <= 1000
    requires Stands(c, at, Written(j)) && Behind(c, at + |Written(j)|, j)
    ensures at < |c| && ParseValue(c, at, depth, strtod) == Expected(ValueOf(j, strtod), at + |Written(j)|, depth)
    decreases j, 2
  {
    hide ParseValue, Expected, Stands, Behind, Lit.Lawful;
    ValueStarts(c, at, j, strtod);
    match j
    case List(gap, es) =>
      ListReads(c, at, gap, es, strtod, depth);
    case Record(gap, fs) =>
      RecordReads(c, at, gap, fs, strtod, depth);
    case Keyword(v) =>
      LeafExpected(j, strtod, at + |Written(j)|, depth);
      KeywordReads(c, at, v, depth, strtod);
    case Numeral(taken, left) =>
      LeafExpected(j, strtod, at + |Written(j)|, depth);
      NumeralReads(c, at, taken, left, depth, strtod);
    case Quote(lit) =>
      LeafExpected(j, strtod, at + |Written(j)|, depth);
      QuoteReads(c, at, lit, depth, strtod);
  }
}
