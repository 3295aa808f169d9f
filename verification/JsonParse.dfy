/** The cJSON parser: recursive descent by a cursor that records where it is and how deeply nested. */
module JsonParse {
  import opened Json
  import opened JsonUtf8
  import opened JsonSyntax
  import opened JsonDecode

  class ParseBuffer {
    const content: seq<byte>
    const strtod: Strtod
    var offset: nat
    var depth: nat

    constructor (text: Chars, strtod: Strtod)
      ensures content == text + [0] && this.strtod == strtod && offset == 0 && depth == 0
    {
      content := text + [0];
      this.strtod := strtod;
      offset, depth := 0, 0;
    }

    ghost predicate Valid()
      reads this
    {
      IsText(content) && offset < |content|
    }

    method SkipWhitespace()
      requires IsText(content) && offset < |content|
      modifies this`offset
      ensures offset == Skip(content, old(offset))
    {
      while offset < |content| && content[offset] <= 32
        invariant offset <= |content| && Blanks(content, offset) == Blanks(content, old(offset))
        decreases |content| - offset
      {
        offset := offset + 1;
      }
      if offset == |content| {
        offset := offset - 1;
      }
    }

    method SkipBom()
      requires Valid() && offset == 0
      modifies this`offset
      ensures Valid() && offset == if Stands(content, 0, BOM) && |content| > 4 then 3 else 0
    {
      StandsSlice(content, 0, BOM);
      if offset + 4 < |content| && content[offset..offset + 3] == BOM {
        offset := offset + 3;
      }
    }

    /** Parses a string literal to a buffer of its own, which is terminated. */
    method ReadLiteral() returns (output: array?<byte>)
      requires Valid()
      modifies this`offset
      ensures output != null <==> ParseString(content, old(offset)).Some?
      ensures output != null ==>
                var literal := ParseString(content, old(offset)).value;
                Valid() && offset == literal.next && |literal.bytes| < output.Length
                && output[..|literal.bytes|] == literal.bytes && output[|literal.bytes|] == 0
    {
      if content[offset] != QUOTE {
        offset := offset + 1;
        return null;
      }
      var start := offset + 1;
      var end, skipped, ok := Measure(content, start);
      if !ok {
        offset := start;
        return null;
      }
      EscapesGrow(content, start, start, end);
      var out := new byte[end - offset - skipped + 1];
      var p, n;
      p, n, ok := DecodeLiteral(content, start, end, out);
      if !ok {
        offset := p;
        return null;
      }
      offset := end + 1;
      return out;
    }

    /** The C string that a literal leaves behind. */
    method ReadChars() returns (chars: Option<Chars>)
      requires Valid()
      modifies this`offset
      ensures chars.Some? <==> ParseString(content, old(offset)).Some?
      ensures chars.Some? ==>
                var literal := ParseString(content, old(offset)).value;
                Valid() && offset == literal.next && chars.value == CStr(literal.bytes)
    {
      ghost var literal := ParseString(content, offset);
      var output := ReadLiteral();
      if output == null {
        return None;
      }
      chars := Some(CStr(output[..]));
      UpToZero(literal.value.bytes, output[..]);
    }

    method ReadNumber() returns (v: Value, ok: bool)
      requires Valid()
      modifies this`offset
      ensures ok <==> ParseNumber(content, old(offset), strtod).Some?
      ensures ok ==> Valid() && ParseNumber(content, old(offset), strtod) == Some(Parsed(v, offset))
    {
      var number := CopyNumber(content, offset);
      var scan := ScanNumber(strtod, number);
      if scan.length == 0 {
        return Invalid, false;
      }
      offset := offset + scan.length;
      return Number(scan.token), true;
    }

    method ReadKeyword() returns (v: Value, ok: bool)
      requires Valid()
      modifies this`offset
      ensures ok <==> ParseKeyword(content, old(offset)).Some?
      ensures ok ==> Valid() && ParseKeyword(content, old(offset)) == Some(Parsed(v, offset))
      ensures !ok ==> offset == old(offset)
    {
      StandsSlice(content, offset, NULL_TEXT);
      StandsSlice(content, offset, FALSE_TEXT);
      StandsSlice(content, offset, TRUE_TEXT);
      var word: Chars;
      if offset + 4 <= |content| && content[offset..offset + 4] == NULL_TEXT {
        v, word := Null, NULL_TEXT;
      } else if offset + 5 <= |content| && content[offset..offset + 5] == FALSE_TEXT {
        v, word := False, FALSE_TEXT;
      } else if offset + 4 <= |content| && content[offset..offset + 4] == TRUE_TEXT {
        v, word := True, TRUE_TEXT;
      } else {
        return Invalid, false;
      }
      offset := offset + |word|;
      ok := true;
    }

    /** Parses the value at `offset`. */
    method ReadValue() returns (v: Value, ok: bool)
      requires Valid()
      modifies this
      ensures ok <==> ParseValue(content, old(offset), old(depth), strtod).Some?
      ensures ok ==> Valid() && depth == old(depth)
      ensures ok ==> ParseValue(content, old(offset), old(depth), strtod) == Some(Parsed(v, offset))
      decreases |content| - offset, 3
    {
      v, ok := ReadKeyword();
      if ok {
        return;
      }
      if content[offset] == QUOTE {
        var chars := ReadChars();
        if chars.None? {
          return Invalid, false;
        }
        return Str(Ptr(chars.value)), true;
      }
      if StartsNumber(content[offset]) {
        v, ok := ReadNumber();
      } else if content[offset] == LBRACKET {
        v, ok := ReadArray();
      } else if content[offset] == LBRACE {
        v, ok := ReadObject();
      }
    }

    /** Steps over an opening bracket and the blanks behind it, one level down. */
    method Enter(bracket: byte) returns (ok: bool)
      requires Valid() && bracket != 0
      modifies this
      ensures ok <==> old(depth) < NESTING_LIMIT && content[old(offset)] == bracket
      ensures ok ==> old(offset) + 1 < |content| && depth == old(depth) + 1 && offset == Skip(content, old(offset) + 1)
    {
      if depth >= NESTING_LIMIT {
        return false;
      }
      depth := depth + 1;
      if content[offset] != bracket {
        return false;
      }
      offset := offset + 1;
      SkipWhitespace();
      ok := true;
    }

    /** Parses the element behind the byte at `offset`, and skips to what ends it. */
    method ReadElement(ghost sofar: seq<Value>) returns (v: Value, ok: bool)
      requires Valid() && offset + 1 < |content|
      modifies this
      ensures ok ==> Valid() && depth == old(depth) && offset > old(offset)
      ensures ParseElements(content, old(offset), old(depth), strtod, sofar) ==
              if ok then AfterElement(content, offset, depth, strtod, sofar + [v]) else None
      decreases |content| - offset, 0
    {
      offset := offset + 1;
      SkipWhitespace();
      v, ok := ReadValue();
      if ok {
        SkipWhitespace();
      }
    }

    method ReadElements() returns (v: Value, ok: bool)
      requires Valid() && offset + 1 < |content|
      modifies this
      ensures ok <==> ParseElements(content, old(offset), old(depth), strtod, []).Some?
      ensures ok ==> Valid() && depth == old(depth)
      ensures ok ==> ParseElements(content, old(offset), old(depth), strtod, []) == Some(Parsed(v, offset))
      decreases |content| - offset, 1
    {
      ghost var start, d := offset, depth;
      var items, more := [], true;
      while more
        invariant Valid() && depth == d && start <= offset
        invariant more ==> offset + 1 < |content|
        invariant ParseElements(content, start, d, strtod, []) ==
                  if more then ParseElements(content, offset, d, strtod, items) else AfterElement(content, offset, d, strtod, items)
        invariant !more ==> content[offset] != COMMA
        decreases more, |content| - offset
      {
        var item;
        item, ok := ReadElement(items);
        if !ok {
          return Invalid, false;
        }
        items := items + [item];
        more := content[offset] == COMMA;
      }
      if content[offset] != RBRACKET {
        return Invalid, false;
      }
      offset := offset + 1;
      return Arr(items), true;
    }

    method ReadArray() returns (v: Value, ok: bool)
      requires Valid()
      modifies this
      ensures ok <==> ParseArray(content, old(offset), old(depth), strtod).Some?
      ensures ok ==> Valid() && depth == old(depth)
      ensures ok ==> ParseArray(content, old(offset), old(depth), strtod) == Some(Parsed(v, offset))
      decreases |content| - offset, 2
    {
      var entered := Enter(LBRACKET);
      if !entered {
        return Invalid, false;
      }
      if content[offset] == RBRACKET {
        depth := depth - 1;
        offset := offset + 1;
        return Arr([]), true;
      }
      offset := offset - 1;
      v, ok := ReadElements();
      if ok {
        depth := depth - 1;
      }
    }

    method ReadKey() returns (key: Option<Chars>)
      requires Valid() && offset + 1 < |content|
      modifies this`offset
      ensures key.Some? <==> ParseKey(content, old(offset)).Some?
      ensures key.Some? ==>
                var r := ParseKey(content, old(offset)).value;
                Valid() && key.value == CStr(r.bytes) && offset == r.next
    {
      offset := offset + 1;
      SkipWhitespace();
      key := ReadChars();
      if key.None? {
        return;
      }
      SkipWhitespace();
      if content[offset] != COLON {
        return None;
      }
      offset := offset + 1;
      SkipWhitespace();
    }

    /** Parses the member behind the byte at `offset`, and skips to what ends it. */
    method ReadMember(ghost sofar: seq<Member>) returns (m: Member, ok: bool)
      requires Valid() && offset + 1 < |content|
      modifies this
      ensures ok ==> Valid() && depth == old(depth) && offset > old(offset)
      ensures ParseMembers(content, old(offset), old(depth), strtod, sofar) ==
              if ok then AfterMember(content, offset, depth, strtod, sofar + [m]) else None
      decreases |content| - offset, 0
    {
      m := Member(NullPtr, Invalid);
      var key := ReadKey();
      if key.None? {
        return m, false;
      }
      var v;
      v, ok := ReadValue();
      if ok {
        SkipWhitespace();
        m := Member(Ptr(key.value), v);
      }
    }

    method ReadMembers() returns (v: Value, ok: bool)
      requires Valid() && offset + 1 < |content|
      modifies this
      ensures ok <==> ParseMembers(content, old(offset), old(depth), strtod, []).Some?
      ensures ok ==> Valid() && depth == old(depth)
      ensures ok ==> ParseMembers(content, old(offset), old(depth), strtod, []) == Some(Parsed(v, offset))
      decreases |content| - offset, 1
    {
      ghost var start, d := offset, depth;
      var members, more := [], true;
      while more
        invariant Valid() && depth == d && start <= offset
        invariant more ==> offset + 1 < |content|
        invariant ParseMembers(content, start, d, strtod, []) ==
                  if more then ParseMembers(content, offset, d, strtod, members) else AfterMember(content, offset, d, strtod, members)
        invariant !more ==> content[offset] != COMMA
        decreases more, |content| - offset
      {
        var member;
        member, ok := ReadMember(members);
        if !ok {
          return Invalid, false;
        }
        members := members + [member];
        more := content[offset] == COMMA;
      }
      if content[offset] != RBRACE {
        return Invalid, false;
      }
      offset := offset + 1;
      return Obj(members), true;
    }

    method ReadObject() returns (v: Value, ok: bool)
      requires Valid()
      modifies this
      ensures ok <==> ParseObject(content, old(offset), old(depth), strtod).Some?
      ensures ok ==> Valid() && depth == old(depth)
      ensures ok ==> ParseObject(content, old(offset), old(depth), strtod) == Some(Parsed(v, offset))
      decreases |content| - offset, 2
    {
      var entered := Enter(LBRACE);
      if !entered {
        return Invalid, false;
      }
      if content[offset] == RBRACE {
        depth := depth - 1;
        offset := offset + 1;
        return Obj([]), true;
      }
      offset := offset - 1;
      v, ok := ReadMembers();
      if ok {
        depth := depth - 1;
      }
    }
  }

  /** Copies the number characters at `at`, at most as many as the number buffer takes. */
  method CopyNumber(c: seq<byte>, at: nat) returns (number: seq<byte>)
    requires at <= |c|
    ensures number == NumberText(c, at)
  {
    number := [];
    var i := 0;
    while i < NUMBER_BUFFER && at + i < |c| && IsNumberChar(c[at + i])
      invariant i <= NUMBER_BUFFER && at + i <= |c| && number == c[at..at + i]
      invariant NumberSpan(c, at, NUMBER_BUFFER) == i + NumberSpan(c, at + i, NUMBER_BUFFER - i)
      decreases NUMBER_BUFFER - i
    {
      assert c[at..at + i + 1] == c[at..at + i] + [c[at + i]];
      number := number + [c[at + i]];
      i := i + 1;
    }
  }

  lemma {:induction false} UpToZero(s: seq<byte>, buffer: seq<byte>)
    requires |s| < |buffer| && buffer[..|s|] == s && buffer[|s|] == 0
    ensures CStr(buffer) == CStr(s)
  {
    if s != [] {
      assert buffer[0] == buffer[..|s|][0] == s[0];
      assert buffer[1..][..|s| - 1] == buffer[..|s|][1..];
      UpToZero(s[1..], buffer[1..]);
    }
  }

  /** Parses a C string; `end` is where the value ends or where the error is. */
  method ParseWithOpts(text: CString, terminated: bool, strtod: Strtod) returns (item: Option<Value>, end: nat)
    ensures text.NullPtr? ==> item.None?
    ensures text.Ptr? ==>
              end <= |text.s|
              && match Parse(text.s, terminated, strtod)
                 case None => item.None?
                 case Some(parsed) => item == Some(parsed.value) && end == parsed.next
  {
    if text.NullPtr? {
      return None, 0;
    }
    var buffer := new ParseBuffer(text.s, strtod);
    buffer.SkipBom();
    buffer.SkipWhitespace();
    var v, ok := buffer.ReadValue();
    if ok && terminated {
      buffer.SkipWhitespace();
      ok := buffer.content[buffer.offset] == 0;
    }
    item := if ok then Some(v) else None;
    end := if buffer.offset < |buffer.content| then buffer.offset else |buffer.content| - 1;
  }
}
