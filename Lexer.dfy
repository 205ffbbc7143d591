/**
 * The tokenizer as the source writes it: an object whose state `S`
 * (Tokenizer.ts:14-22) the readers advance character by character
 * (Tokenizer.ts:72-378).
 *
 * Every reader is proved against the pure scanning functions of
 * LexicalRules, and every mode against its step function in Lexing, so
 * what is proved there about the steps holds for what this class does.
 */
module Lexer {
  import opened Utils
  import opened Tree
  import opened LexicalRules
  import opened Lexing

  // ---------------------------------------------------------------------
  // The input

  /** A carriage return and a newline at `i`. */
  predicate CrlfAt(s: string, i: nat)
  {
    i + 1 < |s| && s[i] == '\r' && s[i + 1] == '\n'
  }

  /**
   * `$TEXT.replace("\r\n", "\n")` (Tokenizer.ts:16): with a string pattern
   * JavaScript replaces the first occurrence only.
   */
  function NormalizeFirst(s: string): (r: string)
    decreases |s|
  {
    if |s| < 2 then s
    else if s[0] == '\r' && s[1] == '\n' then s[1..]
    else [s[0]] + NormalizeFirst(s[1..])
  }

  /** Without a carriage return before a newline the text is kept. */
  lemma {:induction false} NormalizeNoCrlf(s: string)
    requires forall i :: 0 <= i < |s| ==> !CrlfAt(s, i)
    ensures NormalizeFirst(s) == s
    decreases |s|
  {
    if |s| >= 2 {
      assert !CrlfAt(s, 0);
      forall i | 0 <= i < |s[1..]| ensures !CrlfAt(s[1..], i) {
        assert !CrlfAt(s, i + 1);
      }
      NormalizeNoCrlf(s[1..]);
    }
  }

  /** The first carriage return before a newline is dropped and everything after it is kept, later ones included. */
  lemma {:induction false} NormalizeDropsFirst(s: string, i: nat)
    requires CrlfAt(s, i) && forall j :: 0 <= j < i ==> !CrlfAt(s, j)
    ensures NormalizeFirst(s) == s[..i] + s[i + 1..]
    decreases i
  {
    if i > 0 {
      assert !CrlfAt(s, 0);
      NoCrlfShift(s, i);
      NormalizeDropsFirst(s[1..], i - 1);
      SpliceShift(s, i);
    }
  }

  /** No line ending before `i` in `s` is none before `i - 1` in its tail. */
  lemma NoCrlfShift(s: string, i: nat)
    requires 0 < i && CrlfAt(s, i) && forall j :: 0 <= j < i ==> !CrlfAt(s, j)
    ensures CrlfAt(s[1..], i - 1) && forall j :: 0 <= j < i - 1 ==> !CrlfAt(s[1..], j)
  {
    forall j | 0 <= j < i - 1
      ensures !CrlfAt(s[1..], j)
    {
      assert !CrlfAt(s, j + 1);
    }
  }

  lemma SpliceShift(s: string, i: nat)
    requires 0 < i < |s|
    ensures s[..i] + s[i + 1..] == [s[0]] + (s[1..][..i - 1] + s[1..][i..])
  {
    assert s[..i] == [s[0]] + s[1..][..i - 1];
    assert s[i + 1..] == s[1..][i..];
  }

  /** Only the first line ending is normalised. */
  lemma SecondCrlfKept()
    ensures NormalizeFirst("a\r\nb\r\n") == "a\nb\r\n"
  {
    NormalizeDropsFirst("a\r\nb\r\n", 1);
  }

  /**
   * What `read_string` appends from `pos` on, up to the closing quote or
   * to where it stops: a backslash and the next character give that
   * character's escape, any other character gives itself.
   */
  function DecodedFrom(text: string, pos: nat, quote: char): string
    requires pos <= |text|
    decreases |text| - pos
  {
    if pos == |text| then []
    else if text[pos] == '\\' then
      if pos + 1 == |text| then [] else [Escape(text[pos + 1])] + DecodedFrom(text, pos + 2, quote)
    else if text[pos] == '\n' || text[pos] == quote then []
    else [text[pos]] + DecodedFrom(text, pos + 1, quote)
  }

  /** For a string that is closed, what is appended is the decoding of the text between the quotes. */
  lemma {:induction false} DecodedClosed(text: string, pos: nat, quote: char, e: nat)
    requires pos <= |text| && StringEnd(text, pos, quote) == Closed(e)
    ensures pos < e && DecodedFrom(text, pos, quote) == Decode(text[pos..e - 1])
    decreases |text| - pos
  {
    var body := text[pos..e - 1];
    if text[pos] == '\\' {
      DecodedClosed(text, pos + 2, quote, e);
      assert body[0] == '\\' && body[1] == text[pos + 1] && body[2..] == text[pos + 2..e - 1];
    } else if text[pos] != quote {
      DecodedClosed(text, pos + 1, quote, e);
      assert body[0] == text[pos] && body[1..] == text[pos + 1..e - 1];
    }
  }

  /** One escape read by `read_string`: two characters, one appended. */
  lemma EscapeStep(text: string, p: nat, q: char)
    requires p + 1 < |text| && text[p] == '\\'
    ensures StringEnd(text, p, q) == StringEnd(text, p + 2, q)
    ensures DecodedFrom(text, p, q) == [Escape(text[p + 1])] + DecodedFrom(text, p + 2, q)
  {
  }

  /** One plain character read by `read_string`: appended as it is. */
  lemma PlainStep(text: string, p: nat, q: char)
    requires p < |text| && text[p] != '\\' && text[p] != '\n' && text[p] != q
    ensures StringEnd(text, p, q) == StringEnd(text, p + 1, q)
    ensures DecodedFrom(text, p, q) == [text[p]] + DecodedFrom(text, p + 1, q)
  {
  }

  /** One character of a number: a digit, or the first dot. */
  lemma NumStep(text: string, p: nat, before: bool, dot: bool)
    requires p < |text| && ((IsDigit(text[p]) && dot == before) || (text[p] == '.' && !before && dot))
    ensures NumEnd(text, p, before) == NumEnd(text, p + 1, dot)
  {
  }

  /** Appending one character before the rest, or after what was read, gives the same. */
  lemma AppendOne(read: string, c: char, rest: string)
    ensures read + ([c] + rest) == (read + [c]) + rest
  {
  }

  // ---------------------------------------------------------------------
  // The tokenizer

  class Tokenizer {
    const text: string
    var pos: nat
    var line: nat
    var tokPos: nat
    var tokLine: nat
    var mode: Mode

    /** The state `S` as a value. */
    function State(): Cursor
      reads this
    {
      Cursor(pos, line, tokPos, tokLine, mode)
    }

    predicate Valid()
      reads this
    {
      Lexing.Valid(text, State())
    }

    /** `Tokenizer($TEXT)` (Tokenizer.ts:8-22, 280). */
    constructor(source: string)
      ensures text == NormalizeFirst(source) && State() == INITIAL && Valid()
    {
      text := NormalizeFirst(source);
      pos, line, tokPos, tokLine := 0, 1, 0, 0;
      mode := InText;
    }

    /** `peek(ahead)`: the character `ahead - 1` places on, or null past the end. */
    function Peek(ahead: nat): Option<char>
      reads this
      requires ahead >= 1
    {
      if pos + ahead - 1 < |text| then Some(text[pos + ahead - 1]) else None
    }

    /** `token(type, value)`: a token at the recorded start. */
    function NewToken(kind: TokenKind, value: string): Token
      reads this
    {
      Token(kind, value, tokPos, tokLine)
    }

    /** `start_token`. */
    method StartToken()
      modifies this
      ensures State() == Lexing.StartToken(old(State()))
    {
      tokLine := line;
      tokPos := pos;
    }

    /** `consume`: one character, the line counted past a newline; null at the end. */
    method Consume() returns (ch: Option<char>)
      requires Valid()
      modifies this
      ensures Valid()
      ensures old(pos) < |text| ==> ch == Some(text[old(pos)]) && State() == MoveTo(text, old(State()), old(pos) + 1)
      ensures old(pos) == |text| ==> ch == None && State() == old(State())
    {
      if pos >= |text| {
        return None;
      }
      ch := Some(text[pos]);
      pos := pos + 1;
      if ch.value == '\n' {
        line := line + 1;
      }
    }

    /** `acc += consume()` in the reading loops: the text read so far grows by the character at the cursor. */
    method ConsumeInto(ghost from: nat, acc: string) returns (grown: string)
      requires Valid() && from <= pos < |text| && acc == text[from..pos]
      modifies this
      ensures State() == MoveTo(text, old(State()), old(pos) + 1)
      ensures Valid() && grown == text[from..pos]
    {
      var ch := Consume();
      assert text[from..pos] == text[from..pos - 1] + [text[pos - 1]];
      grown := acc + [ch.value];
    }

    /** `forward(n)`: `n` characters, or up to the end. */
    method Forward(n: nat)
      requires Valid()
      modifies this
      ensures Valid()
      ensures State() == MoveTo(text, old(State()), if old(pos) + n <= |text| then old(pos) + n else |text|)
    {
      var i: nat := n;
      while i > 0
        invariant Valid() && i <= n
        invariant State() == MoveTo(text, old(State()), if old(pos) + (n - i) <= |text| then old(pos) + (n - i) else |text|)
      {
        var _ := Consume();
        i := i - 1;
      }
    }

    /** `skip_whitespace`: past spaces and newlines. */
    method SkipWhitespace()
      requires Valid()
      modifies this
      ensures Valid()
      ensures State() == MoveTo(text, old(State()), SkipEnd(text, old(pos)))
    {
      while Peek(1) == Some(' ') || Peek(1) == Some('\n')
        invariant Valid() && old(pos) <= pos
        invariant SkipEnd(text, pos) == SkipEnd(text, old(pos))
        invariant State() == MoveTo(text, old(State()), pos)
        decreases |text| - pos
      {
        var _ := Consume();
      }
    }

    /** `find_eol`: the index of the first newline from the cursor on, or -1. */
    method FindEol() returns (i: int)
      requires Valid()
      ensures i == -1 || (pos <= i < |text| && text[i] == '\n')
      ensures forall k :: pos <= k < (if i == -1 then |text| else i) ==> text[k] != '\n'
    {
      var k := pos;
      while k < |text|
        invariant pos <= k <= |text|
        invariant forall m :: pos <= m < k ==> text[m] != '\n'
      {
        if text[k] == '\n' {
          return k;
        }
        k := k + 1;
      }
      return -1;
    }

    /**
     * `skip_line_comment`: the cursor is set to the newline, not past it,
     * or to the end; the line stays, as no newline was passed.
     */
    method SkipLineComment()
      requires Valid()
      modifies this
      ensures Valid()
      ensures State() == MoveTo(text, old(State()), EolFrom(text, old(pos)))
    {
      var i := FindEol();
      var e: nat := if i == -1 then |text| else i;
      EolAfter(text, pos, e);
      LineFlat(text, pos, e);
      pos := e;
    }

    /** `read_identifier`: the run of identifier characters. */
    method ReadIdentifier() returns (word: string)
      requires Valid()
      modifies this
      ensures Valid()
      ensures word == text[old(pos)..IdentEnd(text, old(pos))]
      ensures State() == MoveTo(text, old(State()), IdentEnd(text, old(pos)))
    {
      word := "";
      while Peek(1).Some? && IsIdentChar(Peek(1).value)
        invariant Valid() && old(pos) <= pos
        invariant IdentEnd(text, pos) == IdentEnd(text, old(pos))
        invariant word == text[old(pos)..pos]
        invariant State() == MoveTo(text, old(State()), pos)
        decreases |text| - pos
      {
        word := ConsumeInto(old(pos), word);
      }
    }

    /** `read_text`: the run up to an opener or the end, trimmed; the token starts where `start_token` left it. */
    method ReadText() returns (t: Token)
      requires Valid()
      modifies this
      ensures Valid()
      ensures t == Tok(Text, Trim(text[old(pos)..TextEnd(text, old(pos))]), old(State()))
      ensures State() == MoveTo(text, old(State()), TextEnd(text, old(pos)))
    {
      var run := "";
      while !(LooksAt(text, pos, "<<") || LooksAt(text, pos, "${") || LooksAt(text, pos, "<%") || LooksAt(text, pos, "[") || Peek(1).None?)
        invariant Valid() && old(pos) <= pos
        invariant TextEnd(text, pos) == TextEnd(text, old(pos))
        invariant run == text[old(pos)..pos]
        invariant State() == MoveTo(text, old(State()), pos)
        decreases |text| - pos
      {
        run := ConsumeInto(old(pos), run);
      }
      t := NewToken(Text, Trim(run));
    }

    /** `read_escaped_char`: the escape of the next character; null at the end. */
    method ReadEscapedChar() returns (ch: Option<char>)
      requires Valid()
      modifies this
      ensures Valid()
      ensures old(pos) < |text| ==> ch == Some(Escape(text[old(pos)])) && State() == MoveTo(text, old(State()), old(pos) + 1)
      ensures old(pos) == |text| ==> ch == None && State() == old(State())
    {
      ch := Consume();
      if ch.Some? {
        ch := Some(Escape(ch.value));
      }
    }

    /**
     * `read_string` from the quote at the cursor. Where the source appends
     * the null it reads past the end for ever, the loop stops with
     * StringRunsOn; where it reads the character code of null after a final
     * backslash, NullCharCode.
     */
    method ReadString() returns (r: Lexed)
      requires Valid() && pos < |text|
      modifies this
      ensures r == StringStep(text, old(State()))
      ensures r.Scanned? ==> Valid() && State() == r.next
    {
      var quote := Consume();
      var ret, scan := StringBody(quote.value);
      match scan {
        case CutByNewline =>
          r := Failed(Unterminated(tokLine, tokPos));
        case RunsOff =>
          r := Failed(StringRunsOn);
        case ReadsNull =>
          r := Failed(NullCharCode);
        case Closed(e) =>
          DecodedClosed(text, old(pos) + 1, quote.value, e);
          r := Scanned(NewToken(String, ret), State());
      }
    }

    /**
     * The `for (;;)` loop of `read_string` after the opening quote: how it
     * ends, and, when the closing quote ends it, what it appended.
     */
    method StringBody(q: char) returns (ret: string, scan: StringScan)
      requires Valid()
      modifies this
      ensures scan == StringEnd(text, old(pos), q)
      ensures tokPos == old(tokPos) && tokLine == old(tokLine)
      ensures scan.Closed? ==> Valid() && ret == DecodedFrom(text, old(pos), q) && State() == MoveTo(text, old(State()), scan.end)
    {
      ret := "";
      while true
        invariant Valid() && old(pos) <= pos
        invariant State() == MoveTo(text, old(State()), pos)
        invariant StringEnd(text, pos, q) == StringEnd(text, old(pos), q)
        invariant ret + DecodedFrom(text, pos, q) == DecodedFrom(text, old(pos), q)
        decreases |text| - pos
      {
        var c, stop := StringChar(q);
        if stop.Some? {
          assert ret + [] == ret;
          return ret, stop.value;
        }
        AppendOne(ret, c, DecodedFrom(text, pos, q));
        ret := ret + [c];
      }
    }

    /**
     * One round of that loop: a character, or an escape read by
     * `read_escaped_char`, to append; or how the string ends.
     */
    method StringChar(q: char) returns (c: char, stop: Option<StringScan>)
      requires Valid()
      modifies this
      ensures Valid() && old(pos) <= pos && State() == MoveTo(text, old(State()), pos)
      ensures stop.Some? ==> stop.value == StringEnd(text, old(pos), q)
      ensures stop.Some? && stop.value.Closed? ==> stop.value.end == pos && DecodedFrom(text, old(pos), q) == []
      ensures stop.None? ==> old(pos) < pos && StringEnd(text, pos, q) == StringEnd(text, old(pos), q)
                             && DecodedFrom(text, old(pos), q) == [c] + DecodedFrom(text, pos, q)
    {
      var ch := Consume();
      if ch.None? {
        return ' ', Some(RunsOff);
      }
      c := ch.value;
      if c == '\\' {
        var e := ReadEscapedChar();
        if e.None? {
          return ' ', Some(ReadsNull);
        }
        EscapeStep(text, old(pos), q);
        return e.value, None;
      } else if c == '\n' {
        return c, Some(CutByNewline);
      } else if c == q {
        return c, Some(Closed(pos));
      }
      PlainStep(text, old(pos), q);
      return c, None;
    }

    /**
     * `read_num`: digits, and one dot unless `hasDot` says one was read
     * before (the `read_while` predicate of Tokenizer.ts:195-199). The
     * number is kept as written; see the notes on `parseFloat`.
     */
    method ReadNum(hasDot: bool) returns (num: string)
      requires Valid()
      modifies this
      ensures Valid()
      ensures num == text[old(pos)..NumEnd(text, old(pos), hasDot)]
      ensures State() == MoveTo(text, old(State()), NumEnd(text, old(pos), hasDot))
    {
      var dot := hasDot;
      num := "";
      while true
        invariant Valid() && old(pos) <= pos
        invariant NumEnd(text, pos, dot) == NumEnd(text, old(pos), hasDot)
        invariant num == text[old(pos)..pos]
        invariant State() == MoveTo(text, old(State()), pos)
        decreases |text| - pos
      {
        ghost var before := dot;
        var ch := Peek(1);
        if ch == Some('.') && !dot {
          dot := true;
        } else if !(ch.Some? && IsDigit(ch.value)) {
          break;
        }
        NumStep(text, pos, before, dot);
        num := ConsumeInto(old(pos), num);
      }
    }

    /** `grow`: the operator extended while the longer word is an operator. */
    method GrowOperator(op: string) returns (g: string)
      requires Valid()
      modifies this
      ensures Valid()
      ensures g == Grow(text, old(pos), op).0
      ensures State() == MoveTo(text, old(State()), Grow(text, old(pos), op).1)
      decreases |text| - pos
    {
      var ch := Peek(1);
      if ch.None? {
        return op;
      }
      var bigger := op + [ch.value];
      if bigger in OPERATORS_AL {
        var _ := Consume();
        g := GrowOperator(bigger);
      } else {
        g := op;
      }
    }

    /**
     * `read_operator` from the operator's first character: the one at the
     * cursor, or `/` already read by `handle_slash`.
     */
    method ReadOperator(first: Option<char>) returns (t: Token)
      requires Valid() && (first.None? ==> pos < |text|)
      modifies this
      ensures Valid()
      ensures var from := if first.Some? then old(pos) else old(pos) + 1;
              var g := Grow(text, from, if first.Some? then [first.value] else [text[old(pos)]]);
              t == Tok(Operator, g.0, old(State())) && State() == MoveTo(text, old(State()), g.1)
    {
      var c: char;
      if first.Some? {
        c := first.value;
      } else {
        var ch := Consume();
        c := ch.value;
      }
      var g := GrowOperator([c]);
      t := NewToken(Operator, g);
    }

    /** `handle_slash`: a `//` comment is skipped to its line's end and gives nothing; else `/` is an operator. */
    method HandleSlash() returns (t: Option<Token>)
      requires Valid() && pos < |text| && text[pos] == '/'
      modifies this
      ensures Valid()
      ensures LooksAt(text, old(pos), "//") ==> t.None? && State() == MoveTo(text, old(State()), EolFrom(text, old(pos) + 2))
      ensures !LooksAt(text, old(pos), "//") ==>
                t == Some(OperatorStep(text, old(State()), "/").tok) && State() == OperatorStep(text, old(State()), "/").next
    {
      var _ := Consume();
      if Peek(1) == Some('/') {
        var _ := Consume();
        SkipLineComment();
        return None;
      }
      var op := ReadOperator(Some('/'));
      return Some(op);
    }

    /** `handle_dot`: a number when a digit follows the dot, else the punctuation "."; the end after a dot fails. */
    method HandleDot() returns (r: Lexed)
      requires Valid() && pos < |text| && text[pos] == '.'
      modifies this
      ensures r == DotStep(text, old(State()))
      ensures r.Scanned? ==> Valid() && State() == r.next
    {
      var _ := Consume();
      var ch := Peek(1);
      if ch.None? {
        return Failed(NullCharCode);
      }
      if IsDigit(ch.value) {
        var num := ReadNum(true);
        assert text[old(pos)..pos] == [text[old(pos)]] + text[old(pos) + 1..pos];
        return Scanned(NewToken(Num, "." + num), State());
      }
      return Scanned(NewToken(Punc, "."), State());
    }

    /** `read_identifier_at`: an attribute keyword or an identifier. */
    method ReadIdentifierAt() returns (t: Token)
      requires Valid()
      modifies this
      ensures Valid()
      ensures var w := text[old(pos)..IdentEnd(text, old(pos))];
              t == Tok(AtWordKind(w), w, old(State())) && State() == MoveTo(text, old(State()), IdentEnd(text, old(pos)))
    {
      var w := ReadIdentifier();
      t := NewToken(if w in KEYWORDS_AT then KW_AT else Identifier, w);
    }

    /** `read_identifier_al`: value keyword, "and", call keyword, keyword or identifier, in that order. */
    method ReadIdentifierAl() returns (t: Token)
      requires Valid()
      modifies this
      ensures Valid()
      ensures var w := text[old(pos)..IdentEnd(text, old(pos))];
              t == Tok(AlWordKind(w), w, old(State())) && State() == MoveTo(text, old(State()), IdentEnd(text, old(pos)))
    {
      var w := ReadIdentifier();
      var kind := Identifier;
      if w in KEYWORDS_VALUE_AL {
        kind := KW_Val_AL;
      } else if w in OPERATORS_AL {
        kind := Operator;
      } else if w in CALLS_AL {
        kind := KW_Call_AL;
      } else if w in KEYWORDS_AL {
        kind := KW_AL;
      }
      t := NewToken(kind, w);
    }
    /** `text_mode`: the end, an opener, or a text run. */
    method TextMode() returns (r: Lexed)
      requires Valid() && mode == InText
      modifies this
      ensures r == TextStep(text, old(State()))
      ensures r.Scanned? ==> Valid() && State() == r.next
    {
      if Peek(1).None? {
        return Scanned(NewToken(EOF, "eof"), State());
      }
      if LooksAt(text, pos, "<<") {
        Forward(2);
        mode := InQuestionAttrs;
        return Scanned(NewToken(QAS, "<<"), State());
      }
      if LooksAt(text, pos, "[") {
        var _ := Consume();
        mode := InOptionAttrs;
        return Scanned(NewToken(OAS, "["), State());
      }
      if LooksAt(text, pos, "${") {
        Forward(2);
        mode := InEmbedded(InText);
        return Scanned(NewToken(EES, "${"), State());
      }
      if LooksAt(text, pos, "<%") {
        Forward(2);
        mode := InLogicBlock;
        return Scanned(NewToken(ALBS, "<%"), State());
      }
      StartToken();
      var t := ReadText();
      return Scanned(t, State());
    }

    /**
     * `attribute_mode` for question attributes (closed by `>>`) and option
     * attributes (closed by `]`), with their end handlers.
     */
    method AttributeMode() returns (r: Lexed)
      requires Valid() && (mode == InQuestionAttrs || mode == InOptionAttrs)
      modifies this
      ensures r == AttrStep(text, old(State()))
      ensures r.Scanned? ==> Valid() && State() == r.next
    {
      SkipWhitespace();
      StartToken();
      if LooksAt(text, pos, Closer(mode)) {
        if mode == InQuestionAttrs {
          Forward(2);
          mode := InText;
          return Scanned(NewToken(QAE, ">>"), State());
        }
        var _ := Consume();
        mode := InText;
        return Scanned(NewToken(OAE, "]"), State());
      }
      if LooksAt(text, pos, "${") {
        Forward(2);
        mode := InEmbedded(InQuestionAttrs);
        return Scanned(NewToken(EES, "${"), State());
      }
      var ch := Peek(1);
      if ch.None? {
        return Scanned(NewToken(EOF, "eof"), State());
      }
      if ch.value == '"' || ch.value == '\'' {
        r := ReadString();
        return;
      }
      if ch.value == '=' {
        var c := Consume();
        return Scanned(NewToken(Punc, [c.value]), State());
      }
      if IsIdentStart(ch.value) {
        var t := ReadIdentifierAt();
        return Scanned(t, State());
      }
      return Failed(Unexpected(ch.value, State()));
    }

    /**
     * The switch of `al_mode` after the end, the closer and the comment
     * are ruled out: strings, dots, `/`, numbers, punctuation, operators
     * and words.
     */
    method AlDispatch() returns (r: Lexed)
      requires Valid() && (mode.InEmbedded? || mode == InLogicBlock) && pos < |text|
      requires tokPos == pos && tokLine == line && !LooksAt(text, pos, "//")
      requires !(mode.InEmbedded? && text[pos] == '}') && !(mode == InLogicBlock && text[pos] == '%')
      modifies this
      ensures r == AlToken(text, old(State()))
      ensures r.Scanned? ==> Valid() && State() == r.next
    {
      var ch := text[pos];
      if ch == '"' || ch == '\'' {
        r := ReadString();
      } else if ch == '.' {
        r := HandleDot();
      } else if ch == '/' {
        var t := HandleSlash();
        r := Scanned(t.value, State());
      } else if IsDigit(ch) {
        var num := ReadNum(false);
        r := Scanned(NewToken(Num, num), State());
      } else if ch in PUNC_CHARS_AL {
        var c := Consume();
        r := Scanned(NewToken(Punc, [c.value]), State());
      } else if ch in OPERATOR_START {
        var t := ReadOperator(None);
        r := Scanned(t, State());
      } else if IsIdentStart(ch) {
        var t := ReadIdentifierAl();
        r := Scanned(t, State());
      } else {
        r := Failed(Unexpected(ch, State()));
      }
    }

    /** `handle_ee_mode_termination`: `}` ends an embedded expression, back to the mode it was opened in. */
    method EndEmbedded() returns (r: Lexed)
      requires Valid() && mode.InEmbedded? && pos < |text| && text[pos] == '}' && tokPos == pos && tokLine == line
      modifies this
      ensures r == AlToken(text, old(State()))
      ensures r.Scanned? ==> Valid() && State() == r.next
    {
      var _ := Consume();
      mode := mode.back;
      return Scanned(NewToken(EEE, "}"), State());
    }

    /** `handle_percentage`: `%>` ends a logic block, back to text; a lone `%` is punctuation. */
    method HandlePercentage() returns (r: Lexed)
      requires Valid() && mode == InLogicBlock && pos < |text| && text[pos] == '%' && tokPos == pos && tokLine == line
      modifies this
      ensures r == AlToken(text, old(State()))
      ensures r.Scanned? ==> Valid() && State() == r.next
    {
      var _ := Consume();
      if Peek(1) == Some('>') {
        mode := InText;
        var _ := Consume();
        return Scanned(NewToken(ALBE, "%>"), State());
      }
      return Scanned(NewToken(Punc, "%"), State());
    }

    /**
     * `al_mode` with the end handlers of `get_ee_mode` (`}` goes back to
     * the mode the expression was opened in) and `al_block_mode` (`%>`
     * goes back to text, a lone `%` is punctuation). A comment sends the
     * loop round again.
     */
    method AlMode() returns (r: Lexed)
      requires Valid() && (mode.InEmbedded? || mode == InLogicBlock)
      modifies this
      ensures r == AlStep(text, old(State()))
      ensures r.Scanned? ==> Valid() && State() == r.next
    {
      while true
        invariant Valid() && mode == old(mode)
        invariant AlStart(text, State()) == AlStart(text, old(State()))
        decreases |text| - pos
      {
        SkipWhitespace();
        StartToken();
        var ch := Peek(1);
        if ch.None? {
          return Scanned(NewToken(EOF, "eof"), State());
        }
        if mode.InEmbedded? && ch.value == '}' {
          r := EndEmbedded();
          return;
        }
        if mode == InLogicBlock && ch.value == '%' {
          r := HandlePercentage();
          return;
        }
        if LooksAt(text, pos, "//") {
          var t := HandleSlash();
          continue;
        }
        r := AlDispatch();
        return;
      }
    }

    /**
     * `next_token`: the current mode's scanner. A token comes with the new
     * state, which is valid again; an error is reported as the source
     * throws it.
     */
    method NextToken() returns (r: Result<Token>)
      requires Valid()
      modifies this
      ensures var l := Step(text, old(State()));
              (l.Scanned? ==> r == Ok(l.tok) && State() == l.next && Valid())
              && (l.Failed? ==> r == Err(Render(l.error)))
    {
      StepValid(text, State());
      var l: Lexed;
      match mode {
        case InText =>
          l := TextMode();
        case InQuestionAttrs =>
          l := AttributeMode();
        case InOptionAttrs =>
          l := AttributeMode();
        case InEmbedded(_) =>
          l := AlMode();
        case InLogicBlock =>
          l := AlMode();
      }
      r := if l.Scanned? then Ok(l.tok) else Err(Render(l.error));
    }
  }
}
