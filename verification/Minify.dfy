/** Minifying JSON in place. */
module Minify {
  import opened Json

  const SLASH: byte := 47
  const STAR: byte := 42
  const RETURN: byte := 13

  // ----- what a text consists of

  datatype Token =
    | Blank(b: byte)
    | LineComment(s: seq<byte>)
    | BlockComment(s: seq<byte>)
    | Literal(s: seq<byte>)
    | Other(b: byte)

  function Bytes(t: Token): seq<byte> {
    match t
    case Blank(b) => [b]
    case LineComment(s) => s
    case BlockComment(s) => s
    case Literal(s) => s
    case Other(b) => [b]
  }

  predicate IsBlank(b: byte) {
    b == SPACE || b == TAB || b == RETURN || b == NEWLINE
  }

  /** `s` from `i` on is the inside of a literal and its closing quote; a backslash takes a byte along. */
  predicate Inside(s: seq<byte>, i: nat)
    decreases |s| - i
  {
    i < |s|
    && if s[i] == QUOTE then i + 1 == |s|
       else if s[i] == BACKSLASH then Inside(s, i + 2)
       else Inside(s, i + 1)
  }

  predicate Closes(s: seq<byte>, i: nat) {
    i + 1 < |s| && s[i] == STAR && s[i + 1] == SLASH
  }

  /** Whether a token may stand in front of `next`, 0 at the end of the text. */
  predicate IsToken(t: Token, next: byte) {
    match t
    case Blank(b) => IsBlank(b)
    case LineComment(s) =>
      && |s| >= 2 && s[0] == SLASH && s[1] == SLASH && (next == 0 || next == NEWLINE)
      && forall i :: 0 <= i < |s| ==> s[i] != NEWLINE
    case BlockComment(s) =>
      && |s| >= 3 && s[0] == SLASH && s[1] == STAR && Closes(s, |s| - 2)
      && forall i :: 0 <= i < |s| - 2 ==> !Closes(s, i)
    case Literal(s) => |s| >= 2 && s[0] == QUOTE && Inside(s, 1)
    case Other(b) => !IsBlank(b) && b != QUOTE && !(b == SLASH && (next == SLASH || next == STAR))
  }

  /** The byte at `i`, 0 behind the end. */
  function ByteAt(text: seq<byte>, i: nat): byte {
    if i < |text| then text[i] else 0
  }

  /** `text` from `i` on consists of the tokens. */
  ghost predicate Lexed(text: seq<byte>, i: nat, tokens: seq<Token>)
    decreases |tokens|
  {
    if tokens == [] then i == |text|
    else
      var s := Bytes(tokens[0]);
      && i + |s| <= |text| && text[i..i + |s|] == s && IsToken(tokens[0], ByteAt(text, i + |s|))
      && Lexed(text, i + |s|, tokens[1..])
  }

  /** What is kept of the tokens: literals byte for byte, and everything that is neither blank nor comment. */
  ghost function Kept(tokens: seq<Token>): seq<byte> {
    if tokens == [] then [] else KeptOf(tokens[0]) + Kept(tokens[1..])
  }

  ghost function KeptOf(t: Token): seq<byte> {
    if t.Literal? || t.Other? then Bytes(t) else []
  }

  // ----- finding the tokens

  function LineEnd(text: seq<byte>, i: nat): (j: nat)
    requires i <= |text|
    ensures i <= j <= |text|
    decreases |text| - i
  {
    if i == |text| || text[i] == NEWLINE then i else LineEnd(text, i + 1)
  }

  function BlockEnd(text: seq<byte>, i: nat): (j: Option<nat>)
    requires i <= |text|
    ensures j.Some? ==> i + 2 <= j.value <= |text|
    decreases |text| - i
  {
    if i == |text| then None else if Closes(text, i) then Some(i + 2) else BlockEnd(text, i + 1)
  }

  function LiteralEnd(text: seq<byte>, i: nat): (j: Option<nat>)
    ensures j.Some? ==> i < j.value <= |text|
    decreases |text| - i
  {
    if i >= |text| then None
    else if text[i] == QUOTE then Some(i + 1)
    else if text[i] == BACKSLASH then LiteralEnd(text, i + 2)
    else LiteralEnd(text, i + 1)
  }

  /** The end of the token at `i`, None if a literal or a comment there is not closed. */
  function TokenEnd(text: seq<byte>, i: nat): (j: Option<nat>)
    requires i < |text|
    ensures j.Some? ==> i < j.value <= |text|
  {
    if text[i] == SLASH && ByteAt(text, i + 1) == SLASH then Some(LineEnd(text, i + 2))
    else if text[i] == SLASH && ByteAt(text, i + 1) == STAR then BlockEnd(text, i + 1)
    else if text[i] == QUOTE then LiteralEnd(text, i + 1)
    else Some(i + 1)
  }

  function TokenOf(text: seq<byte>, i: nat, j: nat): Token
    requires i < j <= |text|
  {
    if IsBlank(text[i]) then Blank(text[i])
    else if text[i] == SLASH && ByteAt(text, i + 1) == SLASH then LineComment(text[i..j])
    else if text[i] == SLASH && ByteAt(text, i + 1) == STAR then BlockComment(text[i..j])
    else if text[i] == QUOTE then Literal(text[i..j])
    else Other(text[i])
  }

  /** The tokens of `text` from `i` on, None if a literal or a comment is not closed. */
  function Scan(text: seq<byte>, i: nat): Option<seq<Token>>
    requires i <= |text|
    decreases |text| - i
  {
    if i == |text| then Some([])
    else
      match TokenEnd(text, i)
      case None => None
      case Some(j) =>
        match Scan(text, j)
        case None => None
        case Some(rest) => Some([TokenOf(text, i, j)] + rest)
  }

  lemma {:induction false} LineEndIs(text: seq<byte>, k: nat, j: nat)
    requires k <= j <= |text|
    ensures LineEnd(text, k) == j
            <==> (forall m :: k <= m < j ==> text[m] != NEWLINE) && (j == |text| || text[j] == NEWLINE)
    decreases j - k
  {
    if k < j && text[k] != NEWLINE {
      LineEndIs(text, k + 1, j);
    }
  }

  lemma {:induction false} BlockEndIs(text: seq<byte>, k: nat, j: nat)
    requires k + 2 <= j <= |text|
    ensures BlockEnd(text, k) == Some(j)
            <==> Closes(text, j - 2) && forall m :: k <= m < j - 2 ==> !Closes(text, m)
    decreases j - k
  {
    if k + 2 < j && !Closes(text, k) {
      BlockEndIs(text, k + 1, j);
    }
  }

  lemma {:induction false} InsideIsEnd(text: seq<byte>, i: nat, j: nat, k: nat)
    requires i <= j <= |text|
    ensures Inside(text[i..j], k) <==> LiteralEnd(text, i + k) == Some(j)
    decreases j - i - k
  {
    if i + k < j {
      assert text[i..j][k] == text[i + k];
      InsideIsEnd(text, i, j, k + 1);
      InsideIsEnd(text, i, j, k + 2);
    }
  }

  lemma LineIsToken(text: seq<byte>, i: nat, j: nat)
    requires NoZero(text) && i + 2 <= j <= |text| && text[i] == SLASH && text[i + 1] == SLASH && LineEnd(text, i + 2) == j
    ensures IsToken(LineComment(text[i..j]), ByteAt(text, j))
  {
    LineEndIs(text, i + 2, j);
  }

  lemma BlockIsToken(text: seq<byte>, i: nat, j: nat)
    requires i + 3 <= j <= |text| && text[i] == SLASH && text[i + 1] == STAR && BlockEnd(text, i + 1) == Some(j)
    ensures IsToken(BlockComment(text[i..j]), ByteAt(text, j))
  {
    BlockEndIs(text, i + 1, j);
    ClosesInSlice(text, i, j);
  }

  /** What the scanner finds is a token. */
  lemma EndIsToken(text: seq<byte>, i: nat)
    requires NoZero(text) && i < |text| && TokenEnd(text, i).Some?
    ensures var j := TokenEnd(text, i).value;
            Bytes(TokenOf(text, i, j)) == text[i..j] && IsToken(TokenOf(text, i, j), ByteAt(text, j))
  {
    var j := TokenEnd(text, i).value;
    if text[i] == SLASH && ByteAt(text, i + 1) == SLASH {
      LineIsToken(text, i, j);
    } else if text[i] == SLASH && ByteAt(text, i + 1) == STAR {
      BlockIsToken(text, i, j);
    } else if text[i] == QUOTE {
      InsideIsEnd(text, i, j, 1);
    }
  }

  lemma ClosesInSlice(text: seq<byte>, i: nat, j: nat)
    requires i <= j <= |text|
    ensures forall m :: 0 <= m < j - i - 1 ==> Closes(text[i..j], m) == Closes(text, i + m)
  {
  }

  /** A token is what the scanner finds. */
  lemma TokenIsEnd(text: seq<byte>, i: nat, t: Token)
    requires NoZero(text) && i + |Bytes(t)| <= |text| && text[i..i + |Bytes(t)|] == Bytes(t)
    requires IsToken(t, ByteAt(text, i + |Bytes(t)|))
    ensures i < |text| && TokenEnd(text, i) == Some(i + |Bytes(t)|) && TokenOf(text, i, i + |Bytes(t)|) == t
  {
    var s := Bytes(t);
    var j := i + |s|;
    assert |s| > 0;
    assert forall m :: 0 <= m < |s| ==> s[m] == text[i + m];
    match t
    case LineComment(_) =>
      assert s[1] == text[i + 1];
      forall m | i + 2 <= m < j ensures text[m] != NEWLINE {
        assert text[m] == s[m - i];
      }
      LineEndIs(text, i + 2, j);
    case BlockComment(_) =>
      assert s[1] == text[i + 1];
      ClosesInSlice(text, i, j);
      forall m | i + 1 <= m < j - 2 ensures !Closes(text, m) {
        assert !Closes(s, m - i);
      }
      assert Closes(s, |s| - 2);
      BlockEndIs(text, i + 1, j);
    case Literal(_) =>
      InsideIsEnd(text, i, j, 1);
    case _ =>
  }

  lemma {:induction false} ScanLexes(text: seq<byte>, i: nat)
    requires NoZero(text) && i <= |text| && Scan(text, i).Some?
    ensures Lexed(text, i, Scan(text, i).value)
    decreases |text| - i
  {
    if i < |text| {
      var j := TokenEnd(text, i).value;
      EndIsToken(text, i);
      ScanLexes(text, j);
      var tokens := Scan(text, i).value;
      assert tokens[0] == TokenOf(text, i, j) && tokens[1..] == Scan(text, j).value;
    }
  }

  lemma {:induction false} LexedScans(text: seq<byte>, i: nat, tokens: seq<Token>)
    requires NoZero(text) && i <= |text| && Lexed(text, i, tokens)
    ensures Scan(text, i) == Some(tokens)
    decreases |tokens|
  {
    if tokens != [] {
      TokenIsEnd(text, i, tokens[0]);
      LexedScans(text, i + |Bytes(tokens[0])|, tokens[1..]);
      assert [tokens[0]] + tokens[1..] == tokens;
    }
  }

  ghost predicate IsText(text: seq<byte>, tokens: seq<Token>) {
    Lexed(text, 0, tokens)
  }

  /** Every text is a row of tokens in exactly one way, unless a literal or a comment is not closed; then in none. */
  lemma OneReading(text: seq<byte>)
    requires NoZero(text)
    ensures Scan(text, 0).Some? <==> exists tokens :: IsText(text, tokens)
    ensures forall tokens :: IsText(text, tokens) ==> Scan(text, 0) == Some(tokens)
  {
    if Scan(text, 0).Some? {
      ScanLexes(text, 0);
      assert IsText(text, Scan(text, 0).value);
    }
    forall tokens | IsText(text, tokens) ensures Scan(text, 0) == Some(tokens) {
      LexedScans(text, 0, tokens);
    }
  }

  lemma {:induction false} KeptHasNoZero(text: seq<byte>, i: nat, tokens: seq<Token>)
    requires NoZero(text) && i <= |text| && Lexed(text, i, tokens)
    ensures NoZero(Kept(tokens))
    decreases |tokens|
  {
    if tokens != [] {
      var s := Bytes(tokens[0]);
      assert NoZero(text[i..i + |s|]);
      KeptHasNoZero(text, i + |s|, tokens[1..]);
    }
  }

  // ----- byte by byte

  /** What a byte of the text belongs to. */
  datatype Mode = Code | Line | Block | Text

  predicate Slashed(text: seq<byte>, i: nat, b: byte) {
    i + 1 < |text| && text[i] == 47 && text[i + 1] == b
  }

  /** What is left of `text` from `i` on: blanks and comments are dropped, every other byte is kept. */
  function Filtered(text: seq<byte>, i: nat, mode: Mode): seq<byte>
    decreases |text| - i
  {
    if i >= |text| then []
    else
      match mode
      case Code =>
        if text[i] == 32 || text[i] == 9 || text[i] == 13 || text[i] == 10 then Filtered(text, i + 1, Code)
        else if Slashed(text, i, 47) then Filtered(text, i + 1, Line)
        else if Slashed(text, i, 42) then Filtered(text, i + 1, Block)
        else [text[i]] + Filtered(text, i + 1, if text[i] == 34 then Text else Code)
      case Line => Filtered(text, i + 1, if text[i] == 10 then Code else Line)
      case Block =>
        if text[i] == 42 && i + 1 < |text| && text[i + 1] == 47 then Filtered(text, i + 2, Code)
        else Filtered(text, i + 1, Block)
      case Text =>
        if text[i] == 92 && i + 1 < |text| then [92, text[i + 1]] + Filtered(text, i + 2, Text)
        else [text[i]] + Filtered(text, i + 1, if text[i] == 34 then Code else Text)
  }

  lemma {:induction false} LineFiltered(text: seq<byte>, i: nat)
    requires i <= |text|
    ensures Filtered(text, i, Line) == Filtered(text, LineEnd(text, i), Code)
    decreases |text| - i
  {
    if i < |text| && text[i] != NEWLINE {
      LineFiltered(text, i + 1);
    }
  }

  lemma {:induction false} BlockFiltered(text: seq<byte>, i: nat)
    requires i <= |text| && BlockEnd(text, i).Some?
    ensures Filtered(text, i, Block) == Filtered(text, BlockEnd(text, i).value, Code)
    decreases |text| - i
  {
    if !Closes(text, i) {
      BlockFiltered(text, i + 1);
    }
  }

  /** One step of a literal. */
  lemma TextStep(text: seq<byte>, i: nat)
    requires i < |text| && LiteralEnd(text, i).Some?
    ensures Filtered(text, i, Text)
            == if text[i] == 34 then [34] + Filtered(text, i + 1, Code)
               else if text[i] == 92 && i + 1 < |text| then [92, text[i + 1]] + Filtered(text, i + 2, Text)
               else [text[i]] + Filtered(text, i + 1, Text)
  {
    hide LiteralEnd;
  }

  lemma LiteralStep(text: seq<byte>, i: nat)
    requires i < |text| && LiteralEnd(text, i).Some?
    ensures text[i] == 34 ==> LiteralEnd(text, i) == Some(i + 1)
    ensures text[i] == 92 ==> i + 1 < |text| && LiteralEnd(text, i) == LiteralEnd(text, i + 2)
    ensures text[i] != 34 && text[i] != 92 ==> LiteralEnd(text, i) == LiteralEnd(text, i + 1)
  {
  }

  lemma Prefixed(text: seq<byte>, i: nat, k: nat, j: nat, rest: seq<byte>)
    requires i <= k <= j <= |text|
    ensures text[i..k] + (text[k..j] + rest) == text[i..j] + rest
  {
  }

  lemma {:induction false} TextFiltered(text: seq<byte>, i: nat)
    requires i < |text| && LiteralEnd(text, i).Some?
    ensures var j := LiteralEnd(text, i).value; Filtered(text, i, Text) == text[i..j] + Filtered(text, j, Code)
    decreases |text| - i
  {
    hide LiteralEnd, Filtered;
    var j := LiteralEnd(text, i).value;
    TextStep(text, i);
    LiteralStep(text, i);
    if text[i] == 34 {
      assert text[i..j] == [34];
    } else {
      var k := if text[i] == 92 then i + 2 else i + 1;
      TextFiltered(text, k);
      Prefixed(text, i, k, j, Filtered(text, j, Code));
      assert text[i..k] == if text[i] == 92 then [92, text[i + 1]] else [text[i]];
    }
  }

  lemma CommentFiltered(text: seq<byte>, i: nat, j: nat)
    requires i < |text| && TokenEnd(text, i) == Some(j) && (Slashed(text, i, 47) || Slashed(text, i, 42))
    ensures Filtered(text, i, Code) == Filtered(text, j, Code) && KeptOf(TokenOf(text, i, j)) == []
  {
    hide LineEnd, BlockEnd, LiteralEnd;
    if Slashed(text, i, 47) {
      assert Filtered(text, i + 1, Line) == Filtered(text, i + 2, Line);
      LineFiltered(text, i + 2);
    } else {
      BlockFiltered(text, i + 1);
    }
  }

  lemma LiteralFiltered(text: seq<byte>, i: nat, j: nat)
    requires i < |text| && TokenEnd(text, i) == Some(j) && text[i] == 34
    ensures Filtered(text, i, Code) == text[i..j] + Filtered(text, j, Code) && KeptOf(TokenOf(text, i, j)) == text[i..j]
  {
    hide LineEnd, BlockEnd, LiteralEnd;
    CodeOpens(text, i);
    hide Filtered;
    TextFiltered(text, i + 1);
    Prefixed(text, i, i + 1, j, Filtered(text, j, Code));
    assert text[i..i + 1] == [34];
  }

  lemma CodeOpens(text: seq<byte>, i: nat)
    requires i < |text| && text[i] == 34
    ensures Filtered(text, i, Code) == [34] + Filtered(text, i + 1, Text)
  {
  }

  lemma ByteFiltered(text: seq<byte>, i: nat, j: nat)
    requires i < |text| && TokenEnd(text, i) == Some(j) && text[i] != 34 && !Slashed(text, i, 47) && !Slashed(text, i, 42)
    ensures Filtered(text, i, Code) == KeptOf(TokenOf(text, i, j)) + Filtered(text, j, Code)
  {
    hide LineEnd, BlockEnd, LiteralEnd;
  }

  /** What is kept of the tokens is what is left byte by byte. */
  lemma {:induction false} KeptIsFiltered(text: seq<byte>, i: nat)
    requires i <= |text| && Scan(text, i).Some?
    ensures Kept(Scan(text, i).value) == Filtered(text, i, Code)
    decreases |text| - i
  {
    if i < |text| {
      hide TokenEnd, Filtered, TokenOf, KeptOf, Slashed;
      var j := ScanStep(text, i);
      KeptIsFiltered(text, j);
      hide Scan, Kept;
      if Slashed(text, i, 47) || Slashed(text, i, 42) {
        CommentFiltered(text, i, j);
        assert [] + Filtered(text, j, Code) == Filtered(text, j, Code);
      } else if text[i] == 34 {
        LiteralFiltered(text, i, j);
      } else {
        ByteFiltered(text, i, j);
      }
    }
  }

  /** Outside of literals there is no blank. */
  predicate Blankless(s: seq<byte>, inside: bool) {
    s == []
    || if inside
       then if s[0] == 92 && |s| >= 2 then Blankless(s[2..], true) else Blankless(s[1..], s[0] != 34)
       else s[0] != 32 && s[0] != 9 && s[0] != 13 && s[0] != 10 && Blankless(s[1..], s[0] == 34)
  }

  lemma {:induction false} FilteredBlankless(text: seq<byte>, i: nat, mode: Mode)
    ensures Blankless(Filtered(text, i, mode), mode == Text)
    decreases |text| - i
  {
    if i < |text| {
      forall k, m: Mode | i < k <= i + 2 ensures Blankless(Filtered(text, k, m), m == Text) {
        FilteredBlankless(text, k, m);
      }
      if mode == Text && text[i] == 92 && i + 1 < |text| {
        assert ([92, text[i + 1]] + Filtered(text, i + 2, Text))[2..] == Filtered(text, i + 2, Text);
      }
    }
  }

  // ----- in place

  /** Where the two cursors stand: what has been written and what the rest will leave make up the result, and the
      rest is untouched. */
  ghost predicate Halfway(a: seq<byte>, text: seq<byte>, into: nat, json: nat, result: seq<byte>) {
    && Untouched(a, text, into, json)
    && Scan(text, json).Some? && a[..into] + Kept(Scan(text, json).value) == result
  }

  ghost predicate Untouched(a: seq<byte>, text: seq<byte>, into: nat, json: nat) {
    into <= json <= |text| < |a| && a[json..|text|] == text[json..] && a[|text|] == 0
  }

  lemma ClosingQuote(text: seq<byte>, r: nat)
    requires NoZero(text) && r <= |text| && LiteralEnd(text, r).Some? && ByteAt(text, r) in {0, QUOTE}
    ensures r < |text| && LiteralEnd(text, r) == Some(r + 1)
  {
  }

  lemma Bounds(a: seq<byte>, text: seq<byte>, into: nat, json: nat)
    requires Untouched(a, text, into, json)
    ensures into <= json <= |text| < |a|
  {
  }

  lemma ScanStep(text: seq<byte>, json: nat) returns (j: nat)
    requires json < |text| && Scan(text, json).Some?
    ensures TokenEnd(text, json) == Some(j) && Scan(text, j).Some?
    ensures Kept(Scan(text, json).value) == KeptOf(TokenOf(text, json, j)) + Kept(Scan(text, j).value)
  {
    j := TokenEnd(text, json).value;
    var tokens := Scan(text, json).value;
    assert tokens[0] == TokenOf(text, json, j) && tokens[1..] == Scan(text, j).value;
  }

  lemma Joined(w: seq<byte>, k: seq<byte>, r: seq<byte>)
    ensures w + (k + r) == w + k + r
  {
  }

  /** Past a token: what it leaves has been written, if it leaves anything. */
  lemma OneToken(before: seq<byte>, a: seq<byte>, text: seq<byte>, into: nat, into': nat, json: nat, j: nat, result: seq<byte>)
    requires Halfway(before, text, into, json, result) && json < |text| && TokenEnd(text, json) == Some(j)
    requires Untouched(a, text, into', j) && a[..into'] == before[..into] + KeptOf(TokenOf(text, json, j))
    ensures Halfway(a, text, into', j, result)
  {
    var _ := ScanStep(text, json);
    Joined(before[..into], KeptOf(TokenOf(text, json, j)), Kept(Scan(text, j).value));
  }

  /** Skips to the end of a line. */
  method SkipLine(a: array<byte>, start: nat, ghost text: seq<byte>) returns (json: nat)
    requires NoZero(text) && Untouched(a[..], text, 0, start)
    ensures json == LineEnd(text, start)
  {
    json := start;
    while a[json] != 0 && a[json] != NEWLINE
      invariant start <= json <= |text| && LineEnd(text, start) == LineEnd(text, json)
      decreases |text| - json
    {
      SameByte(a[..], text, start, json);
      json := json + 1;
    }
    SameByte(a[..], text, start, json);
  }

  lemma SameByte(a: seq<byte>, text: seq<byte>, start: nat, i: nat)
    requires Untouched(a, text, 0, start) && start <= i <= |text|
    ensures a[i] == ByteAt(text, i)
  {
    if i < |text| {
      assert a[i] == a[start..|text|][i - start] == text[start..][i - start];
    }
  }

  /** Skips to the end of a block comment that is closed. */
  method SkipBlock(a: array<byte>, start: nat, ghost text: seq<byte>) returns (json: nat)
    requires NoZero(text) && Untouched(a[..], text, 0, start) && BlockEnd(text, start).Some?
    ensures Some(json) == BlockEnd(text, start)
  {
    json := start;
    while a[json] != 0 && !(a[json] == STAR && a[json + 1] == SLASH)
      invariant start <= json <= |text| && BlockEnd(text, start) == BlockEnd(text, json)
      decreases |text| - json
    {
      SameByte(a[..], text, start, json);
      if json < |text| {
        SameByte(a[..], text, start, json + 1);
      }
      json := json + 1;
    }
    SameByte(a[..], text, start, json);
    if json < |text| {
      SameByte(a[..], text, start, json + 1);
    }
    json := json + 2;
  }

  /** Moves a byte from one cursor to the other. */
  method CopyByte(a: array<byte>, into: nat, json: nat, ghost text: seq<byte>)
    requires Untouched(a[..], text, into, json) && json < |text|
    modifies a
    ensures a[..into + 1] == old(a[..into]) + [text[json]] && Untouched(a[..], text, into + 1, json + 1)
    ensures a[|text|..] == old(a[|text|..])
  {
    SameByte(a[..], text, json, json);
    ghost var before := a[..];
    a[into] := a[json];
    assert a[..into + 1] == before[..into] + [a[into]];
    assert a[json + 1..|text|] == before[json..|text|][1..];
    assert text[json + 1..] == text[json..][1..];
  }

  /** Moves a byte of a literal, and the one behind it with a backslash. */
  method CopyUnit(a: array<byte>, into: nat, json: nat, ghost text: seq<byte>) returns (w: nat, r: nat)
    requires Untouched(a[..], text, into, json) && NoZero(text) && json < |text| && a[json] != QUOTE
    requires LiteralEnd(text, json).Some?
    modifies a
    ensures json < r && LiteralEnd(text, json) == LiteralEnd(text, r) && Untouched(a[..], text, w, r)
    ensures a[..w] == old(a[..into]) + text[json..r] && a[|text|..] == old(a[|text|..])
  {
    SameByte(a[..], text, json, json);
    w, r := into, json;
    if a[r] == BACKSLASH {
      CopyByte(a, w, r, text);
      w, r := w + 1, r + 1;
    }
    CopyByte(a, w, r, text);
    w, r := w + 1, r + 1;
  }

  lemma Slices(text: seq<byte>, i: nat, j: nat, k: nat, s: seq<byte>)
    requires i <= j <= k <= |text|
    ensures s + text[i..j] + text[j..k] == s + text[i..k]
  {
  }

  lemma AtEnd(text: seq<byte>, i: nat)
    ensures ByteAt(text, i) == if i < |text| then text[i] else 0
  {
  }

  /** Moves a literal that is closed. */
  method CopyLiteral(a: array<byte>, into: nat, json: nat, ghost text: seq<byte>) returns (w: nat, r: nat)
    requires Untouched(a[..], text, into, json) && NoZero(text)
    requires json < |text| && text[json] == QUOTE && LiteralEnd(text, json + 1).Some?
    modifies a
    ensures Some(r) == LiteralEnd(text, json + 1) && Untouched(a[..], text, w, r)
    ensures a[..w] == old(a[..into]) + text[json..r] && a[|text|..] == old(a[|text|..])
  {
    ghost var before, rest := a[..into], a[|text|..];
    Bounds(a[..], text, into, json);
    hide *;
    CopyByte(a, into, json, text);
    w, r := into + 1, json + 1;
    Bounds(a[..], text, w, r);
    while a[r] != 0 && a[r] != QUOTE
      invariant w <= r <= |text| < a.Length && json < r && LiteralEnd(text, json + 1) == LiteralEnd(text, r)
      invariant Untouched(a[..], text, w, r)
      invariant a[..w] == before + text[json..r] && a[|text|..] == rest
      decreases |text| - r
    {
      SameByte(a[..], text, r, r);
      AtEnd(text, r);
      ghost var p := r;
      w, r := CopyUnit(a, w, r, text);
      Bounds(a[..], text, w, r);
      Slices(text, json, p, r, before);
    }
    SameByte(a[..], text, r, r);
    ClosingQuote(text, r);
    Slices(text, json, r, r + 1, before);
    CopyByte(a, w, r, text);
    w, r := w + 1, r + 1;
  }

  /** Minifies the text in place: what is left is its literals, byte for byte, and what is neither blank nor comment.
      The text ends at `w`, which has not passed the end of the old one; nothing behind that is changed. */
  method Minify(a: array<byte>, ghost text: Chars) returns (ghost w: nat)
    requires |text| < a.Length && a[..|text|] == text && a[|text|] == 0
    requires Scan(text, 0).Some?
    modifies a
    ensures w <= |text| && a[..w] == Kept(Scan(text, 0).value) && NoZero(a[..w]) && a[w] == 0
    ensures a[..w] == Filtered(text, 0, Code) && Blankless(a[..w], false)
    ensures a[|text| + 1..] == old(a[|text| + 1..])
  {
    var into, json := 0, 0;
    ghost var result := Kept(Scan(text, 0).value);
    ghost var rest := a[|text|..];
    assert text[0..] == text && a[..0] + result == result;
    while a[json] != 0
      invariant 0 <= into <= json <= |text| && Halfway(a[..], text, into, json, result) && a[|text|..] == rest
      decreases |text| - json
    {
      SameByte(a[..], text, json, json);
      into, json := Step(a, into, json, text, result);
    }
    SameByte(a[..], text, json, json);
    w := into;
    ScanLexes(text, 0);
    KeptHasNoZero(text, 0, Scan(text, 0).value);
    KeptIsFiltered(text, 0);
    FilteredBlankless(text, 0, Code);
    a[into] := 0;
  }

  /** Skips a token that is to be left out, if there is one. */
  method SkipToken(a: array<byte>, json: nat, ghost text: Chars) returns (skipped: bool, r: nat)
    requires Untouched(a[..], text, 0, json) && json < |text| && TokenEnd(text, json).Some?
    ensures skipped ==> Some(r) == TokenEnd(text, json) && KeptOf(TokenOf(text, json, r)) == []
    ensures !skipped ==> !IsBlank(text[json])
                         && !(text[json] == SLASH && (ByteAt(text, json + 1) == SLASH || ByteAt(text, json + 1) == STAR))
  {
    SameByte(a[..], text, json, json);
    SameByte(a[..], text, json, json + 1);
    skipped, r := true, json;
    if IsBlank(a[json]) {
      r := json + 1;
    } else if a[json] == SLASH && a[json + 1] == SLASH {
      r := SkipLine(a, json, text);
    } else if a[json] == SLASH && a[json + 1] == STAR {
      r := SkipBlock(a, json, text);
    } else {
      skipped := false;
    }
  }

  /** Moves or skips one token. */
  method Step(a: array<byte>, into: nat, json: nat, ghost text: Chars, ghost result: seq<byte>) returns (w: nat, r: nat)
    requires Halfway(a[..], text, into, json, result) && json < |text|
    modifies a
    ensures json < r && Halfway(a[..], text, w, r, result) && a[|text|..] == old(a[|text|..])
  {
    ghost var before := a[..];
    ghost var j := ScanStep(text, json);
    var skipped;
    skipped, r := SkipToken(a, json, text);
    w := into;
    if skipped {
      LessUntouched(a[..], text, into, json, r);
    } else {
      w, r := CopyToken(a, into, json, text);
    }
    OneToken(before, a[..], text, into, w, json, r, result);
  }

  method CopyToken(a: array<byte>, into: nat, json: nat, ghost text: Chars) returns (w: nat, r: nat)
    requires Untouched(a[..], text, into, json) && json < |text| && TokenEnd(text, json).Some? && !IsBlank(text[json])
    requires !(text[json] == SLASH && (ByteAt(text, json + 1) == SLASH || ByteAt(text, json + 1) == STAR))
    modifies a
    ensures Some(r) == TokenEnd(text, json) && Untouched(a[..], text, w, r)
    ensures a[..w] == old(a[..into]) + KeptOf(TokenOf(text, json, r)) && a[|text|..] == old(a[|text|..])
  {
    SameByte(a[..], text, json, json);
    if a[json] == QUOTE {
      w, r := CopyLiteral(a, into, json, text);
    } else {
      CopyByte(a, into, json, text);
      w, r := into + 1, json + 1;
    }
  }

  lemma LessUntouched(a: seq<byte>, text: seq<byte>, into: nat, json: nat, r: nat)
    requires Untouched(a, text, into, json) && json <= r <= |text|
    ensures Untouched(a, text, into, r)
  {
    assert a[r..|text|] == a[json..|text|][r - json..];
    assert text[r..] == text[json..][r - json..];
  }
}
