/** The cJSON printer: text is written into a buffer that is made larger on the way, and the recorded
    offset lags behind the text until `update_offset` measures it. */
module JsonPrint {
  import opened Json

  const INT_MAX: nat := 0x7FFF_FFFF

  /** The first buffer of `print`. */
  const DEFAULT_SIZE: nat := 256

  class PrintBuffer {
    var buffer: array<byte>
    var offset: nat
    var depth: nat
    const noalloc: bool
    const format: bool
    /** Whether the allocator offers `realloc`; without it the used part is copied by hand. */
    const hasRealloc: bool

    constructor (buffer: array<byte>, noalloc: bool, format: bool, hasRealloc: bool)
      requires buffer.Length <= INT_MAX && (hasRealloc || noalloc || buffer.Length > 0)
      ensures Valid() && this.buffer == buffer && offset == 0 && depth == 0
      ensures this.noalloc == noalloc && this.format == format
    {
      this.buffer := buffer;
      this.offset, this.depth := 0, 0;
      this.noalloc, this.format, this.hasRealloc := noalloc, format, hasRealloc;
    }

    ghost predicate Valid()
      reads this, buffer
    {
      && buffer.Length <= INT_MAX
      && (offset < buffer.Length || (buffer.Length == 0 && offset == 0))
      && (hasRealloc || noalloc || buffer.Length > 0)
    }

    /** How long the buffer can get. */
    ghost function Cap(): nat
      reads this
    {
      if noalloc then buffer.Length else INT_MAX
    }

    /** `text` is what has been written, and `offset` is its end. */
    ghost predicate Settled(text: seq<byte>)
      reads this, buffer
    {
      Valid() && offset == |text| && buffer[..offset] == text
    }

    /** `text` is what has been written, with a terminator behind it; `offset` may be anywhere in it
        from where there is no other zero. */
    ghost predicate Lagging(text: seq<byte>)
      reads this, buffer
    {
      && Valid() && offset <= |text| < buffer.Length
      && buffer[..|text|] == text && buffer[|text|] == 0 && NoZero(text[offset..])
    }

    /** Makes room for `needed` more bytes.  It can be had exactly if it and one byte more fit. */
    method Ensure(needed0: nat) returns (ok: bool)
      requires Valid()
      modifies this`buffer
      ensures ok <==> offset + needed0 + 1 <= Cap()
      ensures ok ==> offset + needed0 + 1 <= buffer.Length
      ensures Valid() && Cap() == old(Cap()) && buffer[..offset] == old(buffer[..offset])
      ensures buffer == old(buffer) || (!noalloc && fresh(buffer))
    {
      if buffer.Length > 0 && offset >= buffer.Length {
        return false;
      }
      if needed0 > INT_MAX {
        return false;
      }
      var needed := needed0 + offset + 1;
      if needed <= buffer.Length {
        return true;
      }
      if noalloc {
        return false;
      }
      var newsize: nat;
      if needed > INT_MAX / 2 {
        if needed <= INT_MAX {
          newsize := INT_MAX;
        } else {
          return false;
        }
      } else {
        newsize := needed * 2;
      }
      var newbuffer := new byte[newsize];
      var kept := if hasRealloc then buffer.Length else offset + 1;
      forall i | 0 <= i < kept {
        newbuffer[i] := buffer[i];
      }
      buffer := newbuffer;
      return true;
    }

    /** Re-measures the text from `offset` on. */
    method UpdateOffset(ghost text: seq<byte>)
      requires Lagging(text)
      modifies this`offset
      ensures Settled(text)
    {
      var n := 0;
      while buffer[offset + n] != 0
        invariant offset + n <= |text|
        decreases |text| - n
      {
        assert buffer[offset + n] == text[offset + n];
        n := n + 1;
      }
      offset := offset + n;
    }

    /** Copies `s` to `buffer + at`. */
    method Write(at: nat, s: seq<byte>)
      requires at + |s| <= buffer.Length
      modifies buffer
      ensures buffer[..at + |s|] == old(buffer[..at]) + s
      ensures buffer[at + |s|..] == old(buffer[at + |s|..])
    {
      forall i | 0 <= i < |s| {
        buffer[at + i] := s[i];
      }
    }

    /** Writes `s` and a terminator behind the text, once there is room, and leaves `offset`. */
    method Put(s: Chars) returns (ok: bool)
      requires Valid()
      modifies this`buffer, buffer
      ensures ok <==> offset + |s| + 2 <= Cap()
      ensures ok ==> Lagging(old(buffer[..offset]) + s)
      ensures Valid() && Cap() == old(Cap()) && (buffer == old(buffer) || (!noalloc && fresh(buffer)))
    {
      ghost var text := buffer[..offset];
      ok := Ensure(|s| + 1);
      if ok {
        Write(offset, s + [0]);
        Terminated(text, s, buffer[..]);
      }
    }

    /** A number is printed to a small buffer first; one that does not fit there is an error. */
    method PrintNumber(token: Chars) returns (ok: bool)
      requires Valid()
      modifies this`buffer, this`offset, buffer
      ensures ok <==> Printable(Number(token)) && old(offset) + |token| + 2 <= Cap()
      ensures ok ==> Lagging(old(buffer[..offset]) + token)
      ensures Valid() && Cap() == old(Cap()) && (buffer == old(buffer) || (!noalloc && fresh(buffer)))
    {
      if |token| > MAX_NUMBER {
        return false;
      }
      ok := Put(token);
      if ok {
        offset := offset + |token|;
      }
    }

    method CountEscapes(s: Chars) returns (extra: nat)
      ensures |Escaped(s, 0)| == |s| + extra
    {
      extra := 0;
      var i := 0;
      while i < |s|
        invariant i <= |s| && |Escaped(s, 0)| == i + extra + |Escaped(s, i)|
      {
        if EscapeLetter(s[i]) != 0 {
          extra := extra + 1;
        } else if s[i] < 32 {
          extra := extra + 5;
        }
        i := i + 1;
      }
    }

    method WriteChar(c: byte, at: nat) returns (next: nat)
      requires at + |EscapeChar(c)| < buffer.Length
      modifies buffer
      ensures next == at + |EscapeChar(c)|
      ensures buffer[..next] == old(buffer[..at]) + EscapeChar(c)
    {
      if IsPlain(c) {
        Write(at, [c]);
        return at + 1;
      }
      Write(at, [BACKSLASH]);
      if EscapeLetter(c) != 0 {
        Write(at + 1, [EscapeLetter(c)]);
        next := at + 2;
      } else {
        Write(at + 1, [117] + HexText(c, 4));
        next := at + 6;
      }
    }

    /** Writes the escaped `s` at `start`. */
    method WriteEscaped(s: Chars, start: nat)
      requires start + |Escaped(s, 0)| < buffer.Length
      modifies buffer
      ensures buffer[..start + |Escaped(s, 0)|] == old(buffer[..start]) + Escaped(s, 0)
    {
      ghost var whole := buffer[..start] + Escaped(s, 0);
      var o, i := start, 0;
      while i < |s|
        invariant i <= |s| && start <= o && o + |Escaped(s, i)| == |whole| < buffer.Length
        invariant buffer[..o] + Escaped(s, i) == whole
      {
        Joined(buffer[..o], EscapeChar(s[i]), Escaped(s, i + 1));
        o := WriteChar(s[i], o);
        i := i + 1;
      }
      assert buffer[..o] + [] == buffer[..o];
    }

    /** Writes the opening quote and what goes behind it; `extra` is what the escapes take. */
    method WriteOpened(s: Chars, extra: nat)
      requires |Escaped(s, 0)| == |s| + extra && offset + 1 + |s| + extra < buffer.Length
      modifies buffer
      ensures buffer[..offset + 1 + |s| + extra] == old(buffer[..offset]) + [QUOTE] + Escaped(s, 0)
    {
      Write(offset, [QUOTE]);
      if extra == 0 {
        NothingEscaped(s, 0);
        Write(offset + 1, s);
      } else {
        WriteEscaped(s, offset + 1);
      }
    }

    /** Writes `s` with its quotes, its escapes and a terminator behind the text; `extra` is what the
        escapes take. */
    method WriteQuoted(s: Chars, extra: nat)
      requires |Escaped(s, 0)| == |s| + extra && offset + |s| + extra + 4 <= buffer.Length
      modifies buffer
      ensures buffer[..offset + |s| + extra + 3] == old(buffer[..offset]) + (Quoted(Ptr(s)) + [0])
    {
      Requoted(buffer[..offset], Escaped(s, 0));
      WriteOpened(s, extra);
      Write(offset + 1 + |s| + extra, [QUOTE, 0]);
    }

    /** Prints a string or a key with its quotes and escapes. */
    method PrintStringPtr(input: CString) returns (ok: bool)
      requires Valid()
      modifies this`buffer, buffer
      ensures ok <==> offset + |Quoted(input)| + 2 <= Cap()
      ensures ok ==> Lagging(old(buffer[..offset]) + Quoted(input))
      ensures Valid() && Cap() == old(Cap()) && (buffer == old(buffer) || (!noalloc && fresh(buffer)))
    {
      if input.NullPtr? {
        ok := Put([QUOTE, QUOTE]);
        return;
      }
      var s := input.s;
      ghost var text := buffer[..offset];
      var extra := CountEscapes(s);
      ok := Ensure(|s| + extra + 3);
      if ok {
        WriteQuoted(s, extra);
        QuotedHasNoZero(input);
        Terminated(text, Quoted(input), buffer[..]);
      }
    }

    /** Appends `s`, once there is room for `room` bytes and one more, and moves `offset` along. */
    method Append(s: seq<byte>, room: nat) returns (ok: bool)
      requires Valid() && |s| <= room
      modifies this`buffer, this`offset, buffer
      ensures ok <==> old(offset) + room + 1 <= Cap()
      ensures ok ==> Settled(old(buffer[..offset]) + s)
      ensures Valid() && Cap() == old(Cap()) && (buffer == old(buffer) || (!noalloc && fresh(buffer)))
    {
      ok := Ensure(room);
      if ok {
        Write(offset, s);
        offset := offset + |s|;
      }
    }

    /** Appends `s` and a terminator, and moves `offset` to the terminator. */
    method AppendTerminated(s: Chars) returns (ok: bool)
      requires Valid()
      modifies this`buffer, this`offset, buffer
      ensures ok <==> old(offset) + |s| + 2 <= Cap()
      ensures ok ==> Settled(old(buffer[..offset]) + s)
      ensures Valid() && Cap() == old(Cap()) && (buffer == old(buffer) || (!noalloc && fresh(buffer)))
    {
      ok := Put(s);
      if ok {
        offset := offset + |s|;
      }
    }

    /** Prints `v`; it is printed exactly if it can be and if its text and two bytes more fit. */
    method PrintValue(v: Value) returns (ok: bool)
      requires Valid()
      modifies this, buffer
      ensures ok <==> Printable(v) && old(offset) + |Text(v, format, old(depth))| + 2 <= Cap()
      ensures ok ==> Lagging(old(buffer[..offset]) + Text(v, format, old(depth))) && depth == old(depth)
      ensures Valid() && Cap() == old(Cap()) && (buffer == old(buffer) || (!noalloc && fresh(buffer)))
      decreases v, 0
    {
      match v
      case Null =>
        ok := Put(NULL_TEXT);
      case False =>
        ok := Put(FALSE_TEXT);
      case True =>
        ok := Put(TRUE_TEXT);
      case Number(token) =>
        ok := PrintNumber(token);
      case Raw(raw) =>
        if raw.NullPtr? {
          return false;
        }
        ok := Put(raw.s);
      case Str(str) =>
        ok := PrintStringPtr(str);
      case Arr(items) =>
        ok := PrintArray(items);
      case Obj(members) =>
        ok := PrintObject(members);
      case Invalid =>
        ok := false;
    }

    /** Prints `v` and measures it. */
    method PrintSettled(v: Value) returns (ok: bool)
      requires Valid()
      modifies this, buffer
      ensures ok <==> Printable(v) && old(offset) + |Text(v, format, old(depth))| + 2 <= Cap()
      ensures ok ==> Settled(old(buffer[..offset]) + Text(v, format, old(depth))) && depth == old(depth)
      ensures Valid() && Cap() == old(Cap()) && (buffer == old(buffer) || (!noalloc && fresh(buffer)))
      decreases v, 1
    {
      ghost var text := buffer[..offset] + Text(v, format, depth);
      ok := PrintValue(v);
      if ok {
        UpdateOffset(text);
      }
    }

    /** Prints element `i` and what follows it. */
    method PrintElement(items: seq<Value>, i: nat) returns (ok: bool)
      requires Valid() && i < |items|
      modifies this, buffer
      ensures ok <==> Printable(items[i]) && old(offset) + |ElementText(items, i, format, old(depth))| + 2 <= Cap()
      ensures ok ==> Settled(old(buffer[..offset]) + ElementText(items, i, format, old(depth))) && depth == old(depth)
      ensures Valid() && Cap() == old(Cap()) && (buffer == old(buffer) || (!noalloc && fresh(buffer)))
      decreases items, 0
    {
      ok := PrintSettled(items[i]);
      if ok && i + 1 < |items| {
        ok := AppendTerminated(Separator(format));
      }
    }

    /** Prints what stands between the brackets; `printed` is all text up to the closing one. */
    method PrintElements(items: seq<Value>) returns (ok: bool, ghost printed: seq<byte>)
      requires Valid()
      modifies this, buffer
      ensures ok ==> items == [] || (Printable(Arr(items)) && offset + 2 <= Cap())
      ensures ok ==> Settled(printed) && depth == old(depth)
      ensures ok ==> printed + [RBRACKET] == old(buffer[..offset]) + Items(items, 0, format, old(depth))
      ensures !ok ==> !Printable(Arr(items)) || old(offset) + |Items(items, 0, format, old(depth))| + 2 > Cap()
      ensures Valid() && Cap() == old(Cap()) && (buffer == old(buffer) || (!noalloc && fresh(buffer)))
      decreases items, 2
    {
      printed := buffer[..offset];
      ghost var d := depth;
      ghost var whole := printed + Items(items, 0, format, d);
      ok := true;
      var i := 0;
      while i < |items|
        invariant i <= |items| && ok && depth == d && Cap() == old(Cap())
        invariant buffer == old(buffer) || (!noalloc && fresh(buffer))
        invariant forall j :: 0 <= j < i ==> Printable(items[j])
        invariant i > 0 ==> offset + 2 <= Cap()
        invariant Settled(printed) && printed + Items(items, i, format, d) == whole
      {
        ok := PrintElement(items, i);
        if !ok {
          return;
        }
        Joined(printed, ElementText(items, i, format, d), Items(items, i + 1, format, d));
        printed := printed + ElementText(items, i, format, d);
        i := i + 1;
      }
    }

    /** Prints an opening bracket and goes one level down. */
    method Open(s: seq<byte>, room: nat) returns (ok: bool)
      requires Valid() && |s| <= room
      modifies this, buffer
      ensures ok <==> old(offset) + room + 1 <= Cap()
      ensures ok ==> Settled(old(buffer[..offset]) + s) && depth == old(depth) + 1
      ensures Valid() && Cap() == old(Cap()) && (buffer == old(buffer) || (!noalloc && fresh(buffer)))
    {
      ok := Append(s, room);
      if ok {
        depth := depth + 1;
      }
    }

    /** Prints a closing bracket and goes back up. */
    method Close(s: Chars) returns (ok: bool)
      requires Valid() && depth > 0
      modifies this, buffer
      ensures ok <==> old(offset) + |s| + 2 <= Cap()
      ensures ok ==> Lagging(old(buffer[..offset]) + s) && depth == old(depth) - 1
      ensures Valid() && Cap() == old(Cap()) && (buffer == old(buffer) || (!noalloc && fresh(buffer)))
    {
      ok := Put(s);
      if ok {
        depth := depth - 1;
      }
    }

    method PrintArray(items: seq<Value>) returns (ok: bool)
      requires Valid()
      modifies this, buffer
      ensures ok <==> Printable(Arr(items)) && old(offset) + |Text(Arr(items), format, old(depth))| + 2 <= Cap()
      ensures ok ==> Lagging(old(buffer[..offset]) + Text(Arr(items), format, old(depth))) && depth == old(depth)
      ensures Valid() && Cap() == old(Cap()) && (buffer == old(buffer) || (!noalloc && fresh(buffer)))
      decreases items, 3
    {
      Joined(buffer[..offset], [LBRACKET], Items(items, 0, format, depth + 1));
      ok := Open([LBRACKET], 1);
      if ok {
        ghost var printed;
        ok, printed := PrintElements(items);
        if ok {
          ok := Close([RBRACKET]);
        }
      }
    }

    /** Starts the line of a member. */
    method Indent() returns (ok: bool)
      requires Valid()
      modifies this`buffer, this`offset, buffer
      ensures ok <==> (format ==> old(offset) + depth + 1 <= Cap())
      ensures ok ==> Settled(if format then old(buffer[..offset]) + Tabs(depth) else old(buffer[..offset]))
      ensures Valid() && Cap() == old(Cap()) && (buffer == old(buffer) || (!noalloc && fresh(buffer)))
    {
      if !format {
        return true;
      }
      ok := Append(Tabs(depth), depth);
    }

    /** Prints a string and measures it. */
    method PrintQuoted(input: CString) returns (ok: bool)
      requires Valid()
      modifies this`buffer, this`offset, buffer
      ensures ok <==> old(offset) + |Quoted(input)| + 2 <= Cap()
      ensures ok ==> Settled(old(buffer[..offset]) + Quoted(input))
      ensures Valid() && Cap() == old(Cap()) && (buffer == old(buffer) || (!noalloc && fresh(buffer)))
    {
      ghost var text := buffer[..offset] + Quoted(input);
      ok := PrintStringPtr(input);
      if ok {
        UpdateOffset(text);
      }
    }

    /** Prints a key and the colon behind it. */
    method PrintKey(key: CString) returns (ok: bool)
      requires Valid()
      modifies this`buffer, this`offset, buffer
      ensures ok ==> Settled(old(buffer[..offset]) + Key(key, format, depth))
      ensures !ok ==> old(offset) + |Key(key, format, depth)| + 1 > Cap()
      ensures Valid() && Cap() == old(Cap()) && (buffer == old(buffer) || (!noalloc && fresh(buffer)))
    {
      ghost var text := buffer[..offset];
      ok := Indent();
      if ok {
        ok := PrintQuoted(key);
        if ok {
          var colon := if format then [COLON, TAB] else [COLON];
          ok := Append(colon, |colon|);
          Bracketed(text, Tabs(depth), Quoted(key), colon);
          Joined(text, Quoted(key), colon);
        }
      }
    }

    method PrintKeyAndValue(m: Member) returns (ok: bool)
      requires Valid()
      modifies this, buffer
      ensures ok ==> Printable(m.value) && Settled(old(buffer[..offset]) + KeyAndValue(m, format, old(depth)))
      ensures ok ==> depth == old(depth)
      ensures !ok ==> !Printable(m.value) || old(offset) + |KeyAndValue(m, format, old(depth))| + 2 > Cap()
      ensures Valid() && Cap() == old(Cap()) && (buffer == old(buffer) || (!noalloc && fresh(buffer)))
      decreases m, 2
    {
      ghost var text := buffer[..offset];
      Joined(text, Key(m.key, format, depth), Text(m.value, format, depth));
      ok := PrintKey(m.key);
      if ok {
        ok := PrintSettled(m.value);
      }
    }

    /** Prints member `i` with its key and what follows it. */
    method PrintMember(members: seq<Member>, i: nat) returns (ok: bool)
      requires Valid() && i < |members|
      modifies this, buffer
      ensures ok <==> Printable(members[i].value) && old(offset) + |MemberText(members, i, format, old(depth))| + 2 <= Cap()
      ensures ok ==> Settled(old(buffer[..offset]) + MemberText(members, i, format, old(depth))) && depth == old(depth)
      ensures Valid() && Cap() == old(Cap()) && (buffer == old(buffer) || (!noalloc && fresh(buffer)))
      decreases members, 0
    {
      ok := PrintKeyAndValue(members[i]);
      if ok {
        ok := AppendTerminated(MemberEnd(i + 1 == |members|, format));
      }
    }

    /** Prints what stands between the brackets; `printed` is all text up to the closing one. */
    method PrintMembers(members: seq<Member>) returns (ok: bool, ghost printed: seq<byte>)
      requires Valid() && depth > 0
      modifies this, buffer
      ensures ok ==> members == [] || (Printable(Obj(members)) && offset + 2 <= Cap())
      ensures ok ==> Settled(printed) && depth == old(depth)
      ensures ok ==> printed + Closing(format, old(depth) - 1) == old(buffer[..offset]) + Members(members, 0, format, old(depth))
      ensures !ok ==> !Printable(Obj(members)) || old(offset) + |Members(members, 0, format, old(depth))| + 2 > Cap()
      ensures Valid() && Cap() == old(Cap()) && (buffer == old(buffer) || (!noalloc && fresh(buffer)))
      decreases members, 2
    {
      printed := buffer[..offset];
      ghost var d := depth;
      ghost var whole := printed + Members(members, 0, format, d);
      ok := true;
      var i := 0;
      while i < |members|
        invariant i <= |members| && ok && depth == d && Cap() == old(Cap())
        invariant buffer == old(buffer) || (!noalloc && fresh(buffer))
        invariant forall j :: 0 <= j < i ==> Printable(members[j].value)
        invariant i > 0 ==> offset + 2 <= Cap()
        invariant Settled(printed) && printed + Members(members, i, format, d) == whole
      {
        ok := PrintMember(members, i);
        if !ok {
          return;
        }
        Joined(printed, MemberText(members, i, format, d), Members(members, i + 1, format, d));
        printed := printed + MemberText(members, i, format, d);
        i := i + 1;
      }
    }

    method PrintObject(members: seq<Member>) returns (ok: bool)
      requires Valid()
      modifies this, buffer
      ensures ok <==> Printable(Obj(members)) && old(offset) + |Text(Obj(members), format, old(depth))| + 2 <= Cap()
      ensures ok ==> Lagging(old(buffer[..offset]) + Text(Obj(members), format, old(depth))) && depth == old(depth)
      ensures Valid() && Cap() == old(Cap()) && (buffer == old(buffer) || (!noalloc && fresh(buffer)))
      decreases members, 3
    {
      Joined(buffer[..offset], Opening(format), Members(members, 0, format, depth + 1));
      ok := Open(Opening(format), |Opening(format)| + 1);
      if ok {
        ghost var printed;
        ok, printed := PrintMembers(members);
        if ok {
          ok := Close(Closing(format, depth - 1));
        }
      }
    }
  }

  lemma Joined(a: seq<byte>, b: seq<byte>, c: seq<byte>)
    ensures a + b + c == a + (b + c)
  {
  }

  lemma Bracketed(a: seq<byte>, b: seq<byte>, c: seq<byte>, d: seq<byte>)
    ensures a + b + c + d == a + (b + c + d)
  {
  }

  lemma Requoted(text: seq<byte>, s: seq<byte>)
    ensures text + [QUOTE] + s + [QUOTE, 0] == text + ([QUOTE] + s + [QUOTE] + [0])
  {
  }

  lemma Terminated(text: seq<byte>, s: Chars, b: seq<byte>)
    requires |text| + |s| < |b| && b[..|text| + |s| + 1] == text + (s + [0])
    ensures b[..|text| + |s|] == text + s && b[|text| + |s|] == 0
    ensures NoZero((text + s)[|text|..])
  {
    assert b[..|text| + |s| + 1][..|text| + |s|] == text + s;
    assert b[..|text| + |s| + 1][|text| + |s|] == 0;
    assert (text + s)[|text|..] == s;
  }

  lemma {:induction false} EscapedNotShorter(s: seq<byte>, k: nat)
    requires k <= |s|
    ensures |Escaped(s, k)| >= |s| - k
    decreases |s| - k
  {
    if k < |s| {
      EscapedNotShorter(s, k + 1);
    }
  }

  /** Text as long as the string it escapes is that string. */
  lemma {:induction false} NothingEscaped(s: seq<byte>, k: nat)
    requires k <= |s| && |Escaped(s, k)| == |s| - k
    ensures Escaped(s, k) == s[k..]
    decreases |s| - k
  {
    if k < |s| {
      EscapedNotShorter(s, k + 1);
      NothingEscaped(s, k + 1);
    }
  }

  /** Prints to a buffer of `prebuffer` bytes that may grow. */
  method PrintBuffered(v: Value, prebuffer: int, format: bool, hasRealloc: bool) returns (printed: array?<byte>)
    requires prebuffer <= 0x7FFF_FFFF && (hasRealloc || prebuffer != 0)
    ensures printed != null <==> prebuffer >= 0 && Printable(v) && |Text(v, format, 0)| + 2 <= 0x7FFF_FFFF
    ensures printed != null ==>
              var n := |Text(v, format, 0)|; n < printed.Length && printed[..n] == Text(v, format, 0) && printed[n] == 0
  {
    if prebuffer < 0 {
      return null;
    }
    var buffer := new byte[prebuffer];
    var p := new PrintBuffer(buffer, false, format, hasRealloc);
    var ok := p.PrintValue(v);
    if !ok {
      return null;
    }
    return p.buffer;
  }

  /** Prints to a buffer that starts with 256 bytes and is cut to the length of the text at the end. */
  method Print(v: Value, format: bool, hasRealloc: bool) returns (printed: array?<byte>)
    ensures printed != null <==> Printable(v) && |Text(v, format, 0)| + 2 <= 0x7FFF_FFFF
    ensures printed != null ==> fresh(printed) && printed[..] == Text(v, format, 0) + [0]
  {
    ghost var text := Text(v, format, 0);
    var buffer := new byte[DEFAULT_SIZE];
    var p := new PrintBuffer(buffer, false, format, hasRealloc);
    var ok := p.PrintValue(v);
    if !ok {
      return null;
    }
    assert [] + text == text;
    assert p.buffer[..|text| + 1] == text + [0];
    p.UpdateOffset(text);
    var n := p.offset;
    printed := new byte[n + 1];
    forall i | 0 <= i <= n {
      printed[i] := p.buffer[i];
    }
    printed[n] := 0;
  }

  /** Prints to the `len` bytes at `buf`: two bytes more than the text are enough, and needed. */
  method PrintPreallocated(v: Value, buf: array?<byte>, len: int, format: bool) returns (ok: bool)
    requires len <= 0x7FFF_FFFF && (buf != null && len >= 0 ==> buf.Length == len)
    modifies buf
    ensures ok <==> buf != null && Printable(v) && |Text(v, format, 0)| + 2 <= len
    ensures ok ==> var n := |Text(v, format, 0)|; buf[..n] == Text(v, format, 0) && buf[n] == 0
  {
    if len < 0 || buf == null {
      return false;
    }
    var p := new PrintBuffer(buf, true, format, true);
    ok := p.PrintValue(v);
  }
}
