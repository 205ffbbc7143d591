/**
 * What one call of the tokenizer's `next_token` produces, as a function of
 * the text and the scanner state `S` (Tokenizer.ts:14-22, 245-378).
 *
 * The source keeps the current mode as a closure in `S.mode`; here it is a
 * datatype. `Step` is the specification the imperative `Lexer.Tokenizer`
 * is proved against, and the lemmas below state what the modes promise.
 */
module Lexing {
  import opened Utils
  import opened Tree
  import opened LexicalRules

  /**
   * The five modes: text, question attributes `<< >>`, option attributes
   * `[ ]`, an embedded expression `${ }` remembering the mode to go back to,
   * and a logic block `<% %>`.
   */
  datatype Mode =
    | InText
    | InQuestionAttrs
    | InOptionAttrs
    | InEmbedded(back: Mode)
    | InLogicBlock

  /** The scanner state `S` without the text. */
  datatype Cursor = Cursor(pos: nat, line: nat, tokPos: nat, tokLine: nat, mode: Mode)

  /** The state at the start (Tokenizer.ts:15-22). */
  const INITIAL := Cursor(0, 1, 0, 0, InText)

  /**
   * `pos` is within the text, `line` counts the newlines before it, and an
   * embedded expression goes back to text or to question attributes.
   */
  predicate Valid(text: string, c: Cursor)
  {
    c.pos <= |text| && c.line == LineAt(text, c.pos)
    && (c.mode.InEmbedded? ==> c.mode.back == InText || c.mode.back == InQuestionAttrs)
  }

  lemma InitialValid(text: string)
    ensures Valid(text, INITIAL)
  {
  }

  /** `token(type, value)`: a token at the recorded start. */
  function Tok(kind: TokenKind, value: string, c: Cursor): Token
  {
    Token(kind, value, c.tokPos, c.tokLine)
  }

  /** The cursor moved to `p`, its line kept in step. */
  function MoveTo(text: string, c: Cursor, p: nat): (d: Cursor)
    requires p <= |text|
    ensures d.pos == p && d.line == LineAt(text, p) && d.tokPos == c.tokPos && d.tokLine == c.tokLine && d.mode == c.mode
  {
    c.(pos := p, line := LineAt(text, p))
  }

  /** `start_token`: the next token starts here. */
  function StartToken(c: Cursor): Cursor
  {
    c.(tokPos := c.pos, tokLine := c.line)
  }

  /** What a step gives: the token and the state after it, or the failure. */
  datatype Lexed = Scanned(tok: Token, next: Cursor) | Failed(error: LexFailure)

  /** `js_error("Unexpected character ...")` at the token's start. */
  function Unexpected(ch: char, c: Cursor): LexFailure
  {
    UnexpectedChar(ch, c.tokLine, c.tokPos)
  }

  // ---------------------------------------------------------------------
  // The modes

  /**
   * `text_mode` (Tokenizer.ts:254-278). The openers and the end of input do
   * not call `start_token`, so their tokens carry the start of the token
   * before them.
   */
  function TextStep(text: string, c: Cursor): Lexed
    requires Valid(text, c)
  {
    if c.pos == |text| then Scanned(Tok(EOF, "eof", c), c)
    else if LooksAt(text, c.pos, "<<") then Scanned(Tok(QAS, "<<", c), MoveTo(text, c, c.pos + 2).(mode := InQuestionAttrs))
    else if LooksAt(text, c.pos, "[") then Scanned(Tok(OAS, "[", c), MoveTo(text, c, c.pos + 1).(mode := InOptionAttrs))
    else if LooksAt(text, c.pos, "${") then Scanned(Tok(EES, "${", c), MoveTo(text, c, c.pos + 2).(mode := InEmbedded(InText)))
    else if LooksAt(text, c.pos, "<%") then Scanned(Tok(ALBS, "<%", c), MoveTo(text, c, c.pos + 2).(mode := InLogicBlock))
    else
      var s := StartToken(c);
      var e := TextEnd(text, c.pos);
      Scanned(Tok(Text, Trim(text[c.pos..e]), s), MoveTo(text, s, e))
  }

  /** `read_string` from the quote at the cursor. */
  function StringStep(text: string, s: Cursor): Lexed
    requires s.pos < |text|
  {
    Quoted(text, s, StringEnd(text, s.pos + 1, text[s.pos]))
  }

  /** The string token, or the failure, for how reading the string ended. */
  function Quoted(text: string, s: Cursor, r: StringScan): Lexed
    requires s.pos < |text| && (r.Closed? ==> s.pos + 2 <= r.end <= |text|)
  {
    match r
    case CutByNewline => Failed(Unterminated(s.tokLine, s.tokPos))
    case RunsOff => Failed(StringRunsOn)
    case ReadsNull => Failed(NullCharCode)
    case Closed(e) => Scanned(Tok(String, Decode(text[s.pos + 1..e - 1]), s), MoveTo(text, s, e))
  }

  /** The closer of an attribute mode and the token it gives. */
  function Closer(m: Mode): string
  {
    if m == InQuestionAttrs then ">>" else "]"
  }

  /**
   * `question_attribute_mode` and `option_attribute_mode`, both through
   * `attribute_mode` (Tokenizer.ts:282-317). An embedded expression opened
   * in either goes back to question attributes.
   */
  function AttrStep(text: string, c: Cursor): Lexed
    requires Valid(text, c) && (c.mode == InQuestionAttrs || c.mode == InOptionAttrs)
  {
    var p := SkipEnd(text, c.pos);
    var s := StartToken(MoveTo(text, c, p));
    var closer := Closer(c.mode);
    if LooksAt(text, p, closer) then
      Scanned(Tok(if c.mode == InQuestionAttrs then QAE else OAE, closer, s), MoveTo(text, s, p + |closer|).(mode := InText))
    else if LooksAt(text, p, "${") then
      Scanned(Tok(EES, "${", s), MoveTo(text, s, p + 2).(mode := InEmbedded(InQuestionAttrs)))
    else if p == |text| then Scanned(Tok(EOF, "eof", s), s)
    else if text[p] == '"' || text[p] == '\'' then StringStep(text, s)
    else if text[p] == '=' then Scanned(Tok(Punc, "=", s), MoveTo(text, s, p + 1))
    else if IsIdentStart(text[p]) then
      var e := IdentEnd(text, p);
      Scanned(Tok(AtWordKind(text[p..e]), text[p..e], s), MoveTo(text, s, e))
    else Failed(Unexpected(text[p], s))
  }

  /**
   * `al_mode` (Tokenizer.ts:345-374) for an embedded expression (closed by
   * `}`, `get_ee_mode`) and a logic block (closed by `%>`,
   * `al_block_mode`): one token from where AlStart leaves the cursor.
   */
  function AlStep(text: string, c: Cursor): Lexed
    requires Valid(text, c) && (c.mode.InEmbedded? || c.mode == InLogicBlock)
  {
    AlToken(text, AlStart(text, c))
  }

  /**
   * The loop of `al_mode`: skip whitespace and start the token; a `//`
   * comment is skipped to the end of its line and the loop goes round
   * again. The result is a valid cursor at a token start, not at a comment,
   * in the same mode. (The source tests for the end and the closer before
   * it looks for `/`; neither is a `/`, so testing for the comment first is
   * the same.)
   */
  function AlStart(text: string, c: Cursor): (s: Cursor)
    requires Valid(text, c) && (c.mode.InEmbedded? || c.mode == InLogicBlock)
    ensures Valid(text, s) && s.mode == c.mode && c.pos <= s.pos
    ensures s.tokPos == s.pos && s.tokLine == s.line && !LooksAt(text, s.pos, "//")
    decreases |text| - c.pos
  {
    var p := SkipEnd(text, c.pos);
    var s := StartToken(MoveTo(text, c, p));
    if LooksAt(text, p, "//") then AlStart(text, MoveTo(text, s, EolFrom(text, p + 2)))
    else s
  }

  /** One logic-language token from the cursor, which is not at a comment. */
  function AlToken(text: string, s: Cursor): Lexed
    requires Valid(text, s) && (s.mode.InEmbedded? || s.mode == InLogicBlock)
  {
    var p := s.pos;
    if p == |text| then Scanned(Tok(EOF, "eof", s), s)
    else
      var ch := text[p];
      if s.mode.InEmbedded? && ch == '}' then
        Scanned(Tok(EEE, "}", s), MoveTo(text, s, p + 1).(mode := s.mode.back))
      else if s.mode == InLogicBlock && ch == '%' then
        if p + 1 < |text| && text[p + 1] == '>' then Scanned(Tok(ALBE, "%>", s), MoveTo(text, s, p + 2).(mode := InText))
        else Scanned(Tok(Punc, "%", s), MoveTo(text, s, p + 1))
      else if ch == '"' || ch == '\'' then StringStep(text, s)
      else if ch == '.' then DotStep(text, s)
      else if ch == '/' then OperatorStep(text, s, "/")
      else if IsDigit(ch) then
        var e := NumEnd(text, p, false);
        Scanned(Tok(Num, text[p..e], s), MoveTo(text, s, e))
      else if ch in PUNC_CHARS_AL then Scanned(Tok(Punc, [ch], s), MoveTo(text, s, p + 1))
      else if ch in OPERATOR_START then OperatorStep(text, s, [ch])
      else if IsIdentStart(ch) then
        var e := IdentEnd(text, p);
        Scanned(Tok(AlWordKind(text[p..e]), text[p..e], s), MoveTo(text, s, e))
      else Failed(Unexpected(ch, s))
  }

  /**
   * `handle_dot` (Tokenizer.ts:238-243): a number when a digit follows the
   * dot, else the punctuation "."; at the end of the input, reading the
   * character after the dot fails.
   */
  function DotStep(text: string, s: Cursor): Lexed
    requires s.pos < |text|
  {
    var p := s.pos;
    if p + 1 == |text| then Failed(NullCharCode)
    else if IsDigit(text[p + 1]) then
      var e := NumEnd(text, p + 1, true);
      Scanned(Tok(Num, text[p..e], s), MoveTo(text, s, e))
    else Scanned(Tok(Punc, ".", s), MoveTo(text, s, p + 1))
  }

  /** `read_operator`: the first character, grown (Tokenizer.ts:209-224). */
  function OperatorStep(text: string, s: Cursor, first: string): Lexed
    requires s.pos < |text| && |first| == 1
  {
    var g := Grow(text, s.pos + 1, first);
    Scanned(Tok(Operator, g.0, s), MoveTo(text, s, g.1))
  }

  /** `next_token`: the current mode's scanner. */
  function Step(text: string, c: Cursor): Lexed
    requires Valid(text, c)
  {
    match c.mode
    case InText => TextStep(text, c)
    case InQuestionAttrs => AttrStep(text, c)
    case InOptionAttrs => AttrStep(text, c)
    case InEmbedded(_) => AlStep(text, c)
    case InLogicBlock => AlStep(text, c)
  }

  // ---------------------------------------------------------------------
  // What the steps promise

  /**
   * What a step promises: the state stays valid and moves forward, except
   * when the step reports the end of the input, which it does only at the
   * end.
   */
  predicate Advances(text: string, c: Cursor, r: Lexed)
  {
    r.Scanned? ==>
      var t, d := r.tok, r.next;
      Valid(text, d) && c.pos <= d.pos
      && (t.kind == EOF ==> d.pos == |text| && t.value == "eof")
      && (t.kind != EOF ==> c.pos < d.pos)
  }

  lemma StepValid(text: string, c: Cursor)
    requires Valid(text, c)
    ensures Advances(text, c, Step(text, c))
  {
    match c.mode
    case InText => TextStepValid(text, c);
    case InQuestionAttrs => AttrStepValid(text, c);
    case InOptionAttrs => AttrStepValid(text, c);
    case InEmbedded(_) => AlStepValid(text, c);
    case InLogicBlock => AlStepValid(text, c);
  }

  lemma TextStepValid(text: string, c: Cursor)
    requires Valid(text, c) && c.mode == InText
    ensures Advances(text, c, TextStep(text, c))
  {
  }

  lemma AttrStepValid(text: string, c: Cursor)
    requires Valid(text, c) && (c.mode == InQuestionAttrs || c.mode == InOptionAttrs)
    ensures Advances(text, c, AttrStep(text, c))
  {
  }

  lemma AlStepValid(text: string, c: Cursor)
    requires Valid(text, c) && (c.mode.InEmbedded? || c.mode == InLogicBlock)
    ensures Advances(text, c, AlStep(text, c))
  {
    var s := AlStart(text, c);
    AlTokenValid(text, s);
    AdvancesFurther(text, c, s, AlToken(text, s));
  }

  lemma AdvancesFurther(text: string, c: Cursor, d: Cursor, r: Lexed)
    requires c.pos <= d.pos && Advances(text, d, r)
    ensures Advances(text, c, r)
  {
  }

  lemma AlTokenValid(text: string, s: Cursor)
    requires Valid(text, s) && (s.mode.InEmbedded? || s.mode == InLogicBlock)
    ensures Advances(text, s, AlToken(text, s))
  {
  }

  // ---------------------------------------------------------------------
  // Text mode

  /**
   * Text mode at the end gives eof and stays; each opener gives its token,
   * takes exactly its one or two characters and enters its mode.
   */
  lemma TextDispatch(text: string, c: Cursor)
    requires Valid(text, c) && c.mode == InText
    ensures c.pos == |text| ==> TextStep(text, c) == Scanned(Token(EOF, "eof", c.tokPos, c.tokLine), c)
    ensures LooksAt(text, c.pos, "<<") ==>
              TextStep(text, c).Scanned? && TextStep(text, c).tok.kind == QAS
              && TextStep(text, c).next.pos == c.pos + 2 && TextStep(text, c).next.mode == InQuestionAttrs
    ensures LooksAt(text, c.pos, "[") ==>
              TextStep(text, c).Scanned? && TextStep(text, c).tok.kind == OAS
              && TextStep(text, c).next.pos == c.pos + 1 && TextStep(text, c).next.mode == InOptionAttrs
    ensures LooksAt(text, c.pos, "${") ==>
              TextStep(text, c).Scanned? && TextStep(text, c).tok.kind == EES
              && TextStep(text, c).next.pos == c.pos + 2 && TextStep(text, c).next.mode == InEmbedded(InText)
    ensures LooksAt(text, c.pos, "<%") ==>
              TextStep(text, c).Scanned? && TextStep(text, c).tok.kind == ALBS
              && TextStep(text, c).next.pos == c.pos + 2 && TextStep(text, c).next.mode == InLogicBlock
  {
    if LooksAt(text, c.pos, "${") {
      assert text[c.pos] == '$';
    }
    if LooksAt(text, c.pos, "[") {
      assert text[c.pos] == '[';
    }
  }

  /**
   * Anywhere else text mode reads the longest run without an opener, which
   * is not empty, and gives it trimmed as a text token starting where the
   * run starts; the trimmed value is empty exactly when the run is all
   * whitespace.
   */
  lemma TextRun(text: string, c: Cursor)
    requires Valid(text, c) && c.mode == InText && c.pos < |text| && !AtOpener(text, c.pos)
    ensures TextStep(text, c).Scanned?
    ensures var t, d := TextStep(text, c).tok, TextStep(text, c).next;
            t.kind == Text && t.pos == c.pos && t.line == c.line && d.mode == InText
            && c.pos < d.pos && t.value == Trim(text[c.pos..d.pos])
            && (forall k :: c.pos <= k < d.pos ==> !AtOpener(text, k))
            && (d.pos == |text| || AtOpener(text, d.pos))
            && (t.value == [] <==> forall k :: c.pos <= k < d.pos ==> IsJsSpace(text[k]))
  {
    var e := TextEnd(text, c.pos);
    TextRunStep(text, c);
    TextEndSpec(text, c.pos);
    TrimEmpty(text[c.pos..e]);
    assert forall k :: c.pos <= k < e ==> text[c.pos..e][k - c.pos] == text[k];
  }

  /** Away from an opener, text mode scans up to the next opener. */
  lemma TextRunStep(text: string, c: Cursor)
    requires Valid(text, c) && c.mode == InText && c.pos < |text| && !AtOpener(text, c.pos)
    ensures c.pos < TextEnd(text, c.pos)
    ensures var e := TextEnd(text, c.pos);
            TextStep(text, c) == Scanned(Tok(Text, Trim(text[c.pos..e]), StartToken(c)), MoveTo(text, StartToken(c), e))
  {
  }

  // ---------------------------------------------------------------------
  // Closing and nesting

  /**
   * After whitespace, `>>` ends question attributes and `]` ends option
   * attributes, both back to text; `${` in either opens an embedded
   * expression that goes back to question attributes.
   */
  lemma AttributeModes(text: string, c: Cursor)
    requires Valid(text, c) && (c.mode == InQuestionAttrs || c.mode == InOptionAttrs)
    ensures var p := SkipEnd(text, c.pos);
            (c.mode == InQuestionAttrs && LooksAt(text, p, ">>") ==>
               AttrStep(text, c).Scanned? && AttrStep(text, c).tok == Token(QAE, ">>", p, LineAt(text, p))
               && AttrStep(text, c).next.pos == p + 2 && AttrStep(text, c).next.mode == InText)
            && (c.mode == InOptionAttrs && LooksAt(text, p, "]") ==>
               AttrStep(text, c).Scanned? && AttrStep(text, c).tok == Token(OAE, "]", p, LineAt(text, p))
               && AttrStep(text, c).next.pos == p + 1 && AttrStep(text, c).next.mode == InText)
            && (LooksAt(text, p, "${") ==>
               AttrStep(text, c).Scanned? && AttrStep(text, c).tok == Token(EES, "${", p, LineAt(text, p))
               && AttrStep(text, c).next.mode == InEmbedded(InQuestionAttrs))
  {
    var p := SkipEnd(text, c.pos);
    if LooksAt(text, p, "${") {
      assert text[p] == '$';
    }
  }

  /**
   * The attribute modes never give an operator token: the "=" between an
   * attribute and its value is the punctuation "=" (Tokenizer.ts:313).
   */
  lemma AttrStepNoOperator(text: string, c: Cursor)
    requires Valid(text, c) && (c.mode == InQuestionAttrs || c.mode == InOptionAttrs)
    ensures AttrStep(text, c).Scanned? ==> AttrStep(text, c).tok.kind != Operator
  {
    var p := SkipEnd(text, c.pos);
    var s := StartToken(MoveTo(text, c, p));
    if !LooksAt(text, p, Closer(c.mode)) && !LooksAt(text, p, "${") && p < |text| {
      if text[p] == '"' || text[p] == '\'' {
        assert AttrStep(text, c) == StringStep(text, s);
        QuotedKind(text, s, StringEnd(text, s.pos + 1, text[s.pos]));
      }
    }
  }

  /** A string step gives a string token when it gives one at all. */
  lemma QuotedKind(text: string, s: Cursor, r: StringScan)
    requires s.pos < |text| && (r.Closed? ==> s.pos + 2 <= r.end <= |text|)
    ensures Quoted(text, s, r).Scanned? ==> Quoted(text, s, r).tok.kind == String
  {
  }

  /** In an attribute mode, "=" is the punctuation "=" (Tokenizer.ts:313). */
  lemma AttrEqualsIsPunc(text: string, c: Cursor)
    requires Valid(text, c) && (c.mode == InQuestionAttrs || c.mode == InOptionAttrs)
    requires SkipEnd(text, c.pos) < |text| && text[SkipEnd(text, c.pos)] == '='
    ensures var p := SkipEnd(text, c.pos);
            AttrStep(text, c).Scanned? && AttrStep(text, c).tok == Token(Punc, "=", p, LineAt(text, p))
  {
    var p := SkipEnd(text, c.pos);
    assert !LooksAt(text, p, Closer(c.mode)) && !LooksAt(text, p, "${");
  }

  /**
   * `}` ends an embedded expression, back to the mode that opened it; `%>`
   * ends a logic block, back to text, and a `%` without `>` in a logic
   * block is the punctuation "%".
   */
  lemma LogicModes(text: string, c: Cursor)
    requires Valid(text, c) && (c.mode.InEmbedded? || c.mode == InLogicBlock)
    ensures var p := SkipEnd(text, c.pos);
            (c.mode.InEmbedded? && LooksAt(text, p, "}") ==>
               AlStep(text, c).Scanned? && AlStep(text, c).tok == Token(EEE, "}", p, LineAt(text, p))
               && AlStep(text, c).next.pos == p + 1 && AlStep(text, c).next.mode == c.mode.back)
            && (c.mode == InLogicBlock && LooksAt(text, p, "%>") ==>
               AlStep(text, c).Scanned? && AlStep(text, c).tok == Token(ALBE, "%>", p, LineAt(text, p))
               && AlStep(text, c).next.pos == p + 2 && AlStep(text, c).next.mode == InText)
            && (c.mode == InLogicBlock && LooksAt(text, p, "%") && !LooksAt(text, p, "%>") ==>
               AlStep(text, c).Scanned? && AlStep(text, c).tok == Token(Punc, "%", p, LineAt(text, p))
               && AlStep(text, c).next.pos == p + 1 && AlStep(text, c).next.mode == InLogicBlock)
  {
    var p := SkipEnd(text, c.pos);
    if LooksAt(text, p, "//") {
      assert text[p] == '/';
    }
  }

  /**
   * A mode entered from text and the modes entered from there come back:
   * every mode a valid step leaves is one of the five, and an embedded
   * expression always goes back to text or to question attributes.
   */
  lemma EmbeddedGoesBack(text: string, c: Cursor)
    requires Valid(text, c) && Step(text, c).Scanned?
    ensures var d := Step(text, c).next;
            d.mode.InEmbedded? ==> d.mode.back == InText || d.mode.back == InQuestionAttrs
  {
    StepValid(text, c);
  }

  // ---------------------------------------------------------------------
  // The logic language

  /**
   * A `//` comment is skipped to its newline: the token after it is read
   * from the same place as if the comment were not there.
   */
  lemma CommentSkipped(text: string, c: Cursor, p: nat, comment: string)
    requires Valid(text, c) && (c.mode.InEmbedded? || c.mode == InLogicBlock) && p == SkipEnd(text, c.pos)
    requires p + 2 + |comment| <= |text| && LooksAt(text, p, "//") && text[p + 2..p + 2 + |comment|] == comment
    requires forall k :: 0 <= k < |comment| ==> comment[k] != '\n'
    requires p + 2 + |comment| == |text| || text[p + 2 + |comment|] == '\n'
    ensures AlStart(text, c) == AlStart(text, c.(pos := p + 2 + |comment|, line := LineAt(text, p + 2 + |comment|)))
  {
    CommentEnd(text, p, comment);
    SkipToEol(text, c);
  }

  lemma SkipToEol(text: string, c: Cursor)
    requires Valid(text, c) && (c.mode.InEmbedded? || c.mode == InLogicBlock)
    requires LooksAt(text, SkipEnd(text, c.pos), "//")
    ensures var e := EolFrom(text, SkipEnd(text, c.pos) + 2);
            AlStart(text, c) == AlStart(text, c.(pos := e, line := LineAt(text, e)))
  {
    var p := SkipEnd(text, c.pos);
    var e := EolFrom(text, p + 2);
    var s := StartToken(MoveTo(text, c, p));
    AlStartIgnoresTokenStart(text, MoveTo(text, s, e), c.(pos := e, line := LineAt(text, e)));
  }

  lemma CommentEnd(text: string, p: nat, comment: string)
    requires p + 2 + |comment| <= |text| && text[p + 2..p + 2 + |comment|] == comment
    requires forall k :: 0 <= k < |comment| ==> comment[k] != '\n'
    requires p + 2 + |comment| == |text| || text[p + 2 + |comment|] == '\n'
    ensures EolFrom(text, p + 2) == p + 2 + |comment|
  {
    var e := p + 2 + |comment|;
    forall k | p + 2 <= k < e ensures text[k] != '\n' {
      assert text[k] == comment[k - p - 2];
    }
    EolAfter(text, p + 2, e);
  }

  /** Where the previous token started does not matter to the logic modes. */
  lemma AlStartIgnoresTokenStart(text: string, c: Cursor, d: Cursor)
    requires Valid(text, c) && (c.mode.InEmbedded? || c.mode == InLogicBlock)
    requires d.pos == c.pos && d.line == c.line && d.mode == c.mode
    ensures Valid(text, d) && AlStart(text, c) == AlStart(text, d)
  {
    var p := SkipEnd(text, c.pos);
    assert StartToken(MoveTo(text, c, p)) == StartToken(MoveTo(text, d, p));
  }

  lemma {:induction false} EolAfter(text: string, i: nat, e: nat)
    requires i <= e <= |text| && (forall k :: i <= k < e ==> text[k] != '\n') && (e == |text| || text[e] == '\n')
    ensures EolFrom(text, i) == e
    decreases e - i
  {
    if i < e {
      EolAfter(text, i + 1, e);
    }
  }

  // ---------------------------------------------------------------------
  // Strings, numbers and operators

  /**
   * A quote, a plain body and the same quote again are one string token
   * holding the decoded body, and reading goes on after the closing quote.
   */
  lemma StringToken(text: string, s: Cursor, body: string)
    requires s.pos + |body| + 1 < |text| && (text[s.pos] == '"' || text[s.pos] == '\'')
    requires text[s.pos + 1..s.pos + 1 + |body|] == body && text[s.pos + 1 + |body|] == text[s.pos]
    requires Plain(body, text[s.pos])
    ensures StringStep(text, s) == Scanned(Tok(String, Decode(body), s), MoveTo(text, s, s.pos + |body| + 2))
  {
    ScanPlain(text, s.pos + 1, text[s.pos], body);
    StringClosed(text, s, s.pos + |body| + 2, body);
  }

  /** A string read to its closing quote is the decoding of what lies between the quotes. */
  lemma StringClosed(text: string, s: Cursor, e: nat, body: string)
    requires s.pos + 2 <= e <= |text| && StringEnd(text, s.pos + 1, text[s.pos]) == Closed(e)
    requires body == text[s.pos + 1..e - 1]
    ensures StringStep(text, s) == Scanned(Tok(String, Decode(body), s), MoveTo(text, s, e))
  {
  }

  /** Where the token after the whitespace at `p` starts. */
  function Started(text: string, c: Cursor, p: nat): Cursor
    requires p <= |text|
  {
    StartToken(MoveTo(text, c, p))
  }

  /** Away from a comment, a logic-mode step scans one token from the first non-space. */
  lemma AtToken(text: string, c: Cursor, p: nat)
    requires Valid(text, c) && (c.mode.InEmbedded? || c.mode == InLogicBlock) && p == SkipEnd(text, c.pos)
    requires !LooksAt(text, p, "//")
    ensures Valid(text, Started(text, c, p)) && AlStep(text, c) == AlToken(text, Started(text, c, p))
  {
  }

  /** A quote after the whitespace starts a string in the logic modes, as in the attribute modes (AttrQuote). */
  lemma AlQuote(text: string, c: Cursor, p: nat)
    requires Valid(text, c) && (c.mode.InEmbedded? || c.mode == InLogicBlock) && p == SkipEnd(text, c.pos)
    requires p < |text| && (text[p] == '"' || text[p] == '\'')
    ensures AlStep(text, c) == StringStep(text, Started(text, c, p))
  {
    assert !LooksAt(text, p, "//");
    AtToken(text, c, p);
    QuoteToken(text, Started(text, c, p));
  }

  lemma QuoteToken(text: string, s: Cursor)
    requires Valid(text, s) && (s.mode.InEmbedded? || s.mode == InLogicBlock)
    requires s.pos < |text| && (text[s.pos] == '"' || text[s.pos] == '\'')
    ensures AlToken(text, s) == StringStep(text, s)
  {
  }

  /** A quote after the whitespace starts a string in the attribute modes. */
  lemma AttrQuote(text: string, c: Cursor, p: nat)
    requires Valid(text, c) && (c.mode == InQuestionAttrs || c.mode == InOptionAttrs) && p == SkipEnd(text, c.pos)
    requires p < |text| && (text[p] == '"' || text[p] == '\'')
    ensures AttrStep(text, c) == StringStep(text, Started(text, c, p))
  {
    assert !LooksAt(text, p, "${");
    assert !LooksAt(text, p, Closer(c.mode));
  }

  /**
   * A number token from where the cursor is: it holds digits and at most
   * one dot, and stops before the first character that cannot continue it.
   */
  predicate NumberFrom(text: string, s: Cursor, r: Lexed)
  {
    r.Scanned? &&
    var t, d := r.tok, r.next;
    t == Tok(Num, t.value, s) && s.pos < d.pos <= |text| && t.value == text[s.pos..d.pos]
    && (forall k :: s.pos <= k < d.pos ==> IsDigit(text[k]) || text[k] == '.')
    && (forall k, m :: s.pos <= k < m < d.pos && text[k] == '.' ==> text[m] != '.')
    && (d.pos == |text| || !IsDigit(text[d.pos]))
  }

  /** A number starts with a digit, or with a dot a digit follows. */
  lemma NumberToken(text: string, s: Cursor)
    requires Valid(text, s) && (s.mode.InEmbedded? || s.mode == InLogicBlock)
    requires s.pos + 1 < |text| && (IsDigit(text[s.pos]) || (text[s.pos] == '.' && IsDigit(text[s.pos + 1])))
    ensures NumberFrom(text, s, AlToken(text, s))
  {
    var p := s.pos;
    if IsDigit(text[p]) {
      NumEndSpec(text, p, false);
    } else {
      NumEndSpec(text, p + 1, true);
    }
  }

  /** A dot without a digit after it is the punctuation "."; at the end of the input it fails. */
  lemma DotToken(text: string, s: Cursor)
    requires Valid(text, s) && (s.mode.InEmbedded? || s.mode == InLogicBlock)
    requires s.pos < |text| && text[s.pos] == '.'
    ensures s.pos + 1 == |text| ==> AlToken(text, s) == Failed(NullCharCode)
    ensures s.pos + 1 < |text| && !IsDigit(text[s.pos + 1]) ==>
              AlToken(text, s) == Scanned(Tok(Punc, ".", s), MoveTo(text, s, s.pos + 1))
  {
  }

  /**
   * An operator grows from its first character while the longer word is an
   * operator: it is the first character alone, or that character and the
   * next when together they are "==", "<=", ">=" or "!="; so "=" alone is
   * an operator token though it is not in the list.
   */
  lemma OperatorToken(text: string, s: Cursor)
    requires Valid(text, s) && (s.mode.InEmbedded? || s.mode == InLogicBlock)
    requires s.pos < |text| && (text[s.pos] in OPERATOR_START || text[s.pos] == '/')
    requires !(s.mode == InLogicBlock && text[s.pos] == '%')
    ensures AlToken(text, s).Scanned?
    ensures var t, d := AlToken(text, s).tok, AlToken(text, s).next;
            t == Tok(Operator, t.value, s) && t.value == text[s.pos..d.pos]
            && ((d.pos == s.pos + 1 && (s.pos + 1 == |text| || t.value + [text[s.pos + 1]] !in OPERATORS_AL))
                || (d.pos == s.pos + 2 && t.value in {"==", "<=", ">=", "!="}))
  {
    OperatorAt(text, s);
    OperatorGrows(text, s);
  }

  lemma OperatorAt(text: string, s: Cursor)
    requires Valid(text, s) && (s.mode.InEmbedded? || s.mode == InLogicBlock)
    requires s.pos < |text| && (text[s.pos] in OPERATOR_START || text[s.pos] == '/')
    requires !(s.mode == InLogicBlock && text[s.pos] == '%')
    ensures AlToken(text, s) == OperatorStep(text, s, [text[s.pos]])
  {
  }

  lemma OperatorGrows(text: string, s: Cursor)
    requires s.pos < |text|
    ensures var t, d := OperatorStep(text, s, [text[s.pos]]).tok, OperatorStep(text, s, [text[s.pos]]).next;
            t == Tok(Operator, t.value, s) && t.value == text[s.pos..d.pos]
            && ((d.pos == s.pos + 1 && (s.pos + 1 == |text| || t.value + [text[s.pos + 1]] !in OPERATORS_AL))
                || (d.pos == s.pos + 2 && t.value in {"==", "<=", ">=", "!="}))
  {
    var p := s.pos;
    GrowAtMostTwo(text, p + 1, text[p]);
    var g := Grow(text, p + 1, [text[p]]);
    assert [text[p]] + text[p + 1..g.1] == text[p..g.1];
    if g.1 == p + 2 {
      OperatorShapes(g.0);
    }
  }
}
