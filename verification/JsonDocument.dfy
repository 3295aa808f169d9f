/** Whole texts: what `cJSON_ParseWithOpts` accepts is what the grammar derives, and nothing else. */
module JsonDocument {
  import opened Json
  import opened JsonSyntax
  import opened JsonGrammar
  import opened JsonPlaces
  import opened JsonAccepts
  import opened JsonSound

  /** `d` is a text of the grammar that means `v`, and parsing stops at `end`. */
  predicate Denotes(d: Document, text: seq<byte>, terminated: bool, strtod: Strtod, v: Value, end: nat) {
    && DocumentLawful(d, terminated, strtod) && DocumentWritten(d) == text && ValueOf(d.body, strtod) == v
    && end == if terminated then |text| else |d.mark + d.lead + Written(d.body)|
  }

  lemma TextStands(text: Chars)
    ensures var c := text + [0]; IsCString(c) && Stands(c, 0, text)
  {
    var c := text + [0];
    SliceStands(c, 0, |text|);
    assert c[0..|text|] == text;
  }

  // ----- from the grammar to the parser

  /** Where the parts of a document stand. */
  lemma Places(d: Document, c: seq<byte>) returns (at: nat, q: nat)
    requires Stands(c, 0, DocumentWritten(d))
    ensures at == |d.mark| + |d.lead| && q == at + |Written(d.body)|
    ensures Stands(c, 0, d.mark) && Stands(c, |d.mark|, d.lead) && Stands(c, at, Written(d.body)) && Stands(c, q, d.rest)
  {
    hide Stands, Written;
    StandsConcat(c, 0, d.mark + d.lead + Written(d.body), d.rest);
    StandsConcat(c, 0, d.mark + d.lead, Written(d.body));
    StandsConcat(c, 0, d.mark, d.lead);
    at := |d.mark| + |d.lead|;
    q := at + |Written(d.body)|;
  }

  lemma StartIs(c: seq<byte>, mark: seq<byte>, lead: seq<byte>)
    requires IsText(c) && (mark == [] || mark == [0xEF, 0xBB, 0xBF]) && Blank(lead)
    requires Stands(c, 0, mark) && Stands(c, |mark|, lead)
    requires var at := |mark| + |lead|; at + 1 < |c| && 32 < c[at] < 0x80
    ensures Start(c) == |mark| + |lead|
  {
    BlankSkipped(c, |mark|, lead);
    if mark == [] {
      if lead != [] {
        ByteAt(c, 0, lead, 0);
      }
      NotWord(c, 0, BOM);
    }
    hide Skip, Blank, Stands;
  }

  lemma RestBehind(c: seq<byte>, q: nat, j: Syntax, rest: seq<byte>)
    requires IsText(c) && Stands(c, q, rest) && q + |rest| + 1 == |c| && Follows(j, rest)
    ensures Behind(c, q, j)
  {
    if j.Numeral? {
      var n := |j.left|;
      assert rest == j.left + rest[n..];
      StandsConcat(c, q, j.left, rest[n..]);
      if n < |rest| {
        ByteAt(c, q, rest, n);
      }
    }
  }

  lemma BlankToEnd(c: seq<byte>, q: nat, rest: seq<byte>)
    requires IsText(c) && Stands(c, q, rest) && q + |rest| + 1 == |c| && Blank(rest)
    ensures Skip(c, q) == |c| - 1
  {
    BlankStands(c, q, rest);
    Skips(c, q, |c| - 1);
  }

  lemma DocumentParts(d: Document, terminated: bool, strtod: Strtod)
    requires DocumentFormed(d, terminated, strtod)
    ensures (d.mark == [] || d.mark == [0xEF, 0xBB, 0xBF]) && Blank(d.lead) && Lawful(d.body, strtod)
    ensures Follows(d.body, d.rest) && (terminated ==> Blank(d.rest))
    ensures var v, end := ValueOf(d.body, strtod), |d.mark + d.lead + Written(d.body)|;
            Expected(v, end, 0) == if Nesting(v) <= 1000 then Some(Parsed(v, end)) else None
    ensures |DocumentWritten(d)| == |d.mark| + |d.lead| + |Written(d.body)| + |d.rest|
  {
  }

  lemma ParseIs(text: Chars, terminated: bool, strtod: Strtod, v: Value, q: nat)
    requires q <= |text|
    requires var c := text + [0]; ParseValue(c, Start(c), 0, strtod) == Some(Parsed(v, q))
    ensures !terminated ==> Parse(text, terminated, strtod) == Some(Parsed(v, q))
    ensures terminated ==>
              var end := Skip(text + [0], q);
              Parse(text, terminated, strtod) == if (text + [0])[end] != 0 then None else Some(Parsed(v, end))
  {
    hide ParseValue, Start, Skip;
  }

  lemma NotParsed(text: Chars, terminated: bool, strtod: Strtod)
    requires var c := text + [0]; ParseValue(c, Start(c), 0, strtod) == None
    ensures Parse(text, terminated, strtod) == None
  {
  }

  /** A text of the grammar is read, unless it is nested too deeply. */
  lemma DocumentReads(d: Document, text: Chars, terminated: bool, strtod: Strtod)
    requires DocumentFormed(d, terminated, strtod) && DocumentWritten(d) == text
    ensures var v := ValueOf(d.body, strtod);
            var end := if terminated then |text| else |d.mark + d.lead + Written(d.body)|;
            Parse(text, terminated, strtod) == if Nesting(v) <= 1000 then Some(Parsed(v, end)) else None
  {
    hide *;
    var c := text + [0];
    TextStands(text);
    CText(c);
    DocumentParts(d, terminated, strtod);
    var at, q := Places(d, c);
    ValueStarts(c, at, d.body, strtod);
    StartIs(c, d.mark, d.lead);
    RestBehind(c, q, d.body, d.rest);
    ValueReads(c, at, d.body, strtod, 0);
    if Nesting(ValueOf(d.body, strtod)) > 1000 {
      NotParsed(text, terminated, strtod);
    } else {
      ParseIs(text, terminated, strtod, ValueOf(d.body, strtod), q);
      if terminated {
        BlankToEnd(c, q, d.rest);
      }
    }
  }

  // ----- from the parser to the grammar

  lemma MarkFound(c: seq<byte>) returns (mark: seq<byte>, lead: seq<byte>)
    requires IsCString(c)
    ensures (mark == [] || mark == [0xEF, 0xBB, 0xBF]) && Blank(lead)
    ensures Stands(c, 0, mark + lead) && Start(c) == |mark + lead|
  {
    mark := if Stands(c, 0, BOM) && |c| > 4 then [0xEF, 0xBB, 0xBF] else [];
    StandsEmpty(c, 0);
    lead := Gap(c, |mark|);
    StandsJoin(c, 0, mark, lead);
    hide Stands, Skip, Blank;
  }

  lemma RestFollows(c: seq<byte>, q: nat, j: Syntax, rest: seq<byte>)
    requires Behind(c, q, j) && Stands(c, q, rest) && q + |rest| + 1 == |c|
    ensures Follows(j, rest)
  {
    if j.Numeral? {
      var n := |j.left|;
      forall i | 0 <= i < n ensures j.left[i] == rest[i] {
        ByteAt(c, q, j.left, i);
        ByteAt(c, q, rest, i);
      }
      if n < |rest| {
        ByteAt(c, q, rest, n);
      }
    }
  }

  lemma BlankBehind(c: seq<byte>, q: nat, rest: seq<byte>)
    requires IsCString(c) && Stands(c, q, rest) && q + |rest| + 1 == |c| && c[Skip(c, q)] == 0
    ensures Blank(rest) && Skip(c, q) == |c| - 1
  {
    Skipped(c, q);
    forall i | 0 <= i < |rest| ensures 1 <= rest[i] <= 32 {
      ByteAt(c, q, rest, i);
    }
  }

  lemma ParsedParts(text: Chars, terminated: bool, strtod: Strtod)
    requires Parse(text, terminated, strtod).Some?
    ensures var c := text + [0];
            && ParseValue(c, Start(c), 0, strtod).Some?
            && var r := ParseValue(c, Start(c), 0, strtod).value;
            && r.next <= |text|
            && Parse(text, terminated, strtod).value == Parsed(r.value, if terminated then Skip(c, r.next) else r.next)
            && (terminated ==> c[Skip(c, r.next)] == 0)
  {
    hide ParseValue, Start, Skip;
  }

  lemma DocumentIs(c: seq<byte>, text: seq<byte>, mark: seq<byte>, lead: seq<byte>, j: Syntax, v: Value, q: nat, strtod: Strtod)
    returns (d: Document)
    requires c == text + [0] && Stands(c, 0, mark + lead) && Derives(c, |mark + lead|, j, v, q, 0, strtod)
    ensures q <= |text| && d == Document(mark, lead, j, text[q..]) && DocumentWritten(d) == text && Stands(c, q, d.rest)
    ensures Follows(j, d.rest) && q + |d.rest| + 1 == |c| && q == |mark + lead + Written(j)|
  {
    hide Stands, Written, Lawful, ValueOf, Nesting, Follows;
    var rest := text[q..];
    d := Document(mark, lead, j, rest);
    StandsJoin(c, 0, mark + lead, Written(j));
    StandsSlice(c, 0, mark + lead + Written(j));
    assert c[0..q] == text[..q];
    assert text == text[..q] + rest;
    StandsSlice(c, q, rest);
    assert c[q..q + |rest|] == rest;
    RestFollows(c, q, j, rest);
  }

  lemma LawfulDocument(c: seq<byte>, d: Document, v: Value, at: nat, q: nat, terminated: bool, strtod: Strtod)
    requires (d.mark == [] || d.mark == [0xEF, 0xBB, 0xBF]) && Blank(d.lead) && Follows(d.body, d.rest)
    requires Derives(c, at, d.body, v, q, 0, strtod) && (terminated ==> Blank(d.rest))
    ensures DocumentLawful(d, terminated, strtod) && ValueOf(d.body, strtod) == v
  {
    hide Follows, Blank, Lawful, Nesting;
  }

  lemma DocumentFound(text: Chars, terminated: bool, strtod: Strtod) returns (d: Document)
    requires Parse(text, terminated, strtod).Some?
    ensures var r := Parse(text, terminated, strtod).value; Denotes(d, text, terminated, strtod, r.value, r.next)
  {
    hide Parse, ParseValue, Start, Skip, Stands, Derives, DocumentLawful, DocumentWritten, ValueOf, Blank, Follows, IsCString;
    var c := text + [0];
    TextStands(text);
    CText(c);
    ParsedParts(text, terminated, strtod);
    var r := ParseValue(c, Start(c), 0, strtod).value;
    var mark, lead := MarkFound(c);
    var j := ValueFound(c, Start(c), 0, strtod);
    d := DocumentIs(c, text, mark, lead, j, r.value, r.next, strtod);
    if terminated {
      BlankBehind(c, r.next, d.rest);
    }
    LawfulDocument(c, d, r.value, Start(c), r.next, terminated, strtod);
  }

  // ----- both directions

  /** A text parses to `v` exactly if the grammar derives it and it means `v`. */
  lemma ParsesExactly(text: Chars, terminated: bool, strtod: Strtod, v: Value, end: nat)
    ensures Parse(text, terminated, strtod) == Some(Parsed(v, end))
            <==> exists d: Document :: Denotes(d, text, terminated, strtod, v, end)
  {
    hide Parse;
    if Parse(text, terminated, strtod) == Some(Parsed(v, end)) {
      var d := DocumentFound(text, terminated, strtod);
    }
    if d: Document :| Denotes(d, text, terminated, strtod, v, end) {
      DocumentReads(d, text, terminated, strtod);
    }
  }
}
