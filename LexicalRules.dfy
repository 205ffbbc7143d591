/**
 * The lexical vocabulary of the survey language and the scanning functions
 * the tokenizer's readers are specified by (Tokenizer.ts:24-243).
 *
 * Every function here looks at the text from a position on and says where a
 * reader stops and what it has read; the methods of `Lexer.Tokenizer` are
 * proved to do exactly that.
 */
module LexicalRules {
  import opened Utils
  import opened Tree

  // ---------------------------------------------------------------------
  // Word lists (`makePredicate`, Tokenizer.ts:24-46)

  const CALLS_AL: seq<string> := [
    "has", "has_not", "only_has", "go_to", "hide", "terminate", "show_error",
    "randomize_rows", "rotate_rows", "randomize_columns", "rotate_columns",
    "resume_row_order", "resume_column_order", "rotate_questions",
    "randomize_questions", "query", "evaluate"
  ]

  const KEYWORDS_VALUE_AL: seq<string> := ["true", "false", "undefined"]

  /** The value keywords, "and", four plain keywords, then the call keywords. */
  const KEYWORDS_AL: seq<string> :=
    KEYWORDS_VALUE_AL + ["and", "def", "rule", "action", "conditions"] + CALLS_AL

  const OPERATOR_START: seq<char> := ['+', '-', '*', '%', '=', '<', '>', '!']

  const OPERATORS_AL: seq<string> := [
    "==", "<", "<=", ">", ">=", "==", "!=", "+", "-", "*", "/", "%", "!", "and"
  ]

  const PUNC_CHARS_AL: seq<char> := ['{', '}', '(', ')', ',', '|', ':']

  const KEYWORDS_AT: seq<string> := [
    "name", "hide", "can_skip", "fixed", "after", "before", "rotate_rows",
    "randomize_rows", "rotate_columns", "randomize_columns",
    "minimal_selections", "maximum_selections", "single_choice",
    "multiple_choice", "single_choice_matrix", "multi_choice_matrix", "text",
    "number", "minimal_value", "maximum_value", "rotate_questions",
    "randomize_questions", "data", "xor", "all", "default", "type"
  ]

  // ---------------------------------------------------------------------
  // Characters (Tokenizer.ts:48-70)

  predicate IsLetter(c: char)
  {
    'a' <= c <= 'z' || 'A' <= c <= 'Z'
  }

  predicate IsIdentStart(c: char)
  {
    c == '$' || c == '_' || IsLetter(c)
  }

  predicate IsIdentChar(c: char)
  {
    IsIdentStart(c) || IsDigit(c)
  }

  /** What `read_identifier` reads when it starts on an identifier-start character. */
  predicate IsWord(w: string)
  {
    |w| > 0 && IsIdentStart(w[0]) && forall k :: 0 <= k < |w| ==> IsIdentChar(w[k])
  }

  /** `skip_whitespace` skips only spaces and newlines. */
  predicate IsSkippable(c: char)
  {
    c == ' ' || c == '\n'
  }

  /**
   * `testIfPeekIs(pattern)` at `pos`: the text continues with `pattern`
   * there. Every pattern the tokenizer tests is one or two characters long.
   */
  predicate LooksAt(text: string, pos: nat, pattern: string)
  {
    |pattern| <= 2 && pos + |pattern| <= |text|
    && (|pattern| >= 1 ==> text[pos] == pattern[0])
    && (|pattern| == 2 ==> text[pos + 1] == pattern[1])
  }

  /** Where a text run stops: before `<<`, `${`, `<%` or `[`. */
  predicate AtOpener(text: string, pos: nat)
  {
    LooksAt(text, pos, "<<") || LooksAt(text, pos, "${") || LooksAt(text, pos, "<%") || LooksAt(text, pos, "[")
  }

  // ---------------------------------------------------------------------
  // Lines

  /** The line the character at `pos` is on: one more than the newlines before it. */
  function LineAt(text: string, pos: nat): (n: nat)
    requires pos <= |text|
    ensures n >= 1
  {
    if pos == 0 then 1 else LineAt(text, pos - 1) + (if text[pos - 1] == '\n' then 1 else 0)
  }

  /** Moving over text without a newline keeps the line. */
  lemma {:induction false} LineFlat(text: string, i: nat, j: nat)
    requires i <= j <= |text| && forall k :: i <= k < j ==> text[k] != '\n'
    ensures LineAt(text, j) == LineAt(text, i)
    decreases j - i
  {
    if i < j {
      LineFlat(text, i, j - 1);
    }
  }

  // ---------------------------------------------------------------------
  // Where each reader stops

  /** `skip_whitespace`: the first position from `pos` on that is not a space or newline. */
  function SkipEnd(text: string, pos: nat): (e: nat)
    requires pos <= |text|
    ensures pos <= e <= |text|
    decreases |text| - pos
  {
    if pos < |text| && IsSkippable(text[pos]) then SkipEnd(text, pos + 1) else pos
  }

  /** SkipEnd passes only spaces and newlines and stops at anything else. */
  lemma {:induction false} SkipEndSpec(text: string, pos: nat)
    requires pos <= |text|
    ensures var e := SkipEnd(text, pos);
            (forall k :: pos <= k < e ==> IsSkippable(text[k])) && (e == |text| || !IsSkippable(text[e]))
    decreases |text| - pos
  {
    if pos < |text| && IsSkippable(text[pos]) {
      SkipEndSpec(text, pos + 1);
    }
  }

  /** `read_identifier`: the end of the run of identifier characters from `pos`. */
  function IdentEnd(text: string, pos: nat): (e: nat)
    requires pos <= |text|
    ensures pos <= e <= |text|
    decreases |text| - pos
  {
    if pos < |text| && IsIdentChar(text[pos]) then IdentEnd(text, pos + 1) else pos
  }

  /** IdentEnd passes identifier characters and stops at the first other one. */
  lemma {:induction false} IdentEndSpec(text: string, pos: nat)
    requires pos <= |text|
    ensures var e := IdentEnd(text, pos);
            (forall k :: pos <= k < e ==> IsIdentChar(text[k])) && (e == |text| || !IsIdentChar(text[e]))
    decreases |text| - pos
  {
    if pos < |text| && IsIdentChar(text[pos]) {
      IdentEndSpec(text, pos + 1);
    }
  }

  /** `read_text`: the end of the run that holds no opener and stops at one or at the end. */
  function TextEnd(text: string, pos: nat): (e: nat)
    requires pos <= |text|
    ensures pos <= e <= |text|
    decreases |text| - pos
  {
    if pos < |text| && !AtOpener(text, pos) then TextEnd(text, pos + 1) else pos
  }

  /** TextEnd passes no opener and stops at the first one or at the end. */
  lemma {:induction false} TextEndSpec(text: string, pos: nat)
    requires pos <= |text|
    ensures var e := TextEnd(text, pos);
            (forall k :: pos <= k < e ==> !AtOpener(text, k)) && (e == |text| || AtOpener(text, e))
    decreases |text| - pos
  {
    if pos < |text| && !AtOpener(text, pos) {
      TextEndSpec(text, pos + 1);
    }
  }

  /**
   * `read_num`'s loop (Tokenizer.ts:195-199): digits, and one dot unless a
   * dot was already read.
   */
  function NumEnd(text: string, pos: nat, hasDot: bool): (e: nat)
    requires pos <= |text|
    ensures pos <= e <= |text|
    decreases |text| - pos
  {
    if pos == |text| then pos
    else if text[pos] == '.' then (if hasDot then pos else NumEnd(text, pos + 1, true))
    else if IsDigit(text[pos]) then NumEnd(text, pos + 1, hasDot)
    else pos
  }

  /**
   * NumEnd passes digits and at most one dot (none when one was read
   * before), and stops at a non-digit that cannot be taken as the dot.
   */
  lemma {:induction false} NumEndSpec(text: string, pos: nat, hasDot: bool)
    requires pos <= |text|
    ensures var e := NumEnd(text, pos, hasDot);
            (forall k :: pos <= k < e ==> IsDigit(text[k]) || text[k] == '.')
            && (e == |text| || (!IsDigit(text[e]) && (text[e] != '.' || hasDot || exists k :: pos <= k < e && text[k] == '.')))
            && (hasDot ==> forall k :: pos <= k < e ==> text[k] != '.')
            && (forall k, m :: pos <= k < m < e && text[k] == '.' ==> text[m] != '.')
    decreases |text| - pos
  {
    if pos < |text| && text[pos] == '.' && !hasDot {
      NumEndSpec(text, pos + 1, true);
    } else if pos < |text| && IsDigit(text[pos]) {
      NumEndSpec(text, pos + 1, hasDot);
    }
  }

  /** `find_eol` made total: the first newline from `pos` on, or the end of the text. */
  function EolFrom(text: string, pos: nat): (e: nat)
    requires pos <= |text|
    ensures pos <= e <= |text|
    ensures e == |text| || text[e] == '\n'
    decreases |text| - pos
  {
    if pos < |text| && text[pos] != '\n' then EolFrom(text, pos + 1) else pos
  }

  /**
   * `read_operator`'s `grow` (Tokenizer.ts:212-221): extend `op` by the next
   * character while the longer word is an operator. Gives the operator and
   * where it ends.
   */
  function Grow(text: string, pos: nat, op: string): (r: (string, nat))
    requires pos <= |text|
    ensures pos <= r.1 <= |text|
    decreases |text| - pos
  {
    if pos < |text| && op + [text[pos]] in OPERATORS_AL then Grow(text, pos + 1, op + [text[pos]])
    else (op, pos)
  }

  /** Grow's operator is `op` followed by the characters it passed. */
  lemma {:induction false} GrowSpells(text: string, pos: nat, op: string)
    requires pos <= |text|
    ensures var r := Grow(text, pos, op);
            r.0 == op + text[pos..r.1]
    decreases |text| - pos
  {
    if pos < |text| && op + [text[pos]] in OPERATORS_AL {
      GrowSpells(text, pos + 1, op + [text[pos]]);
      var r := Grow(text, pos + 1, op + [text[pos]]);
      assert op + text[pos..r.1] == op + [text[pos]] + text[pos + 1..r.1];
    }
  }

  /** Grow stops at the longest operator: it is one when it grew, and the next character would not make one. */
  lemma {:induction false} GrowLongest(text: string, pos: nat, op: string)
    requires pos <= |text|
    ensures var r := Grow(text, pos, op);
            (r.1 > pos ==> r.0 in OPERATORS_AL) && (r.1 == |text| || r.0 + [text[r.1]] !in OPERATORS_AL)
    decreases |text| - pos
  {
    if pos < |text| && op + [text[pos]] in OPERATORS_AL {
      GrowLongest(text, pos + 1, op + [text[pos]]);
    }
  }

  /** `read_escaped_char`: `\n` and `\r` stand for a newline, `\t` for a tab, any other character for itself. */
  function Escape(c: char): char
  {
    if c == 'n' || c == 'r' then '\n' else if c == 't' then '\t' else c
  }

  /**
   * The errors the tokenizer raises, as data: an unexpected character and a
   * string cut by a newline are parse errors at the token's start; a
   * backslash at the very end reads the character code of null; a string
   * the input ends inside makes `read_string` loop for ever. Render gives
   * each as the source reports it.
   */
  datatype LexFailure =
    | UnexpectedChar(ch: char, line: nat, pos: nat)
    | Unterminated(line: nat, pos: nat)
    | NullCharCode
    | StringRunsOn

  function Render(f: LexFailure): (r: Failure)
    ensures f.UnexpectedChar? || f.Unterminated? <==> r.ParseError?
    ensures r.ParseError? ==> r.line == f.line && r.pos == f.pos
  {
    match f
    case UnexpectedChar(ch, line, pos) => ParseError("Unexpected character '" + [ch] + "'", line, pos)
    case Unterminated(line, pos) => ParseError("Unterminated string constant", line, pos)
    case NullCharCode => Fault("TypeError: Cannot read property 'charCodeAt' of null")
    case StringRunsOn => Diverges("read_string")
  }

  /** How reading a string ends: after its closing quote, or at a newline, the end of the input, or a final backslash. */
  datatype StringScan = Closed(end: nat) | CutByNewline | RunsOff | ReadsNull

  /**
   * `read_string` from just after the opening quote (Tokenizer.ts:177-191):
   * where the string ends, just after its closing quote; what it holds is
   * the decoding of the text between the quotes (Decode). A raw newline
   * cuts it; a backslash as the last character reads past the end; a
   * string the input ends inside never stops, since reading past the end
   * gives null, which is appended as the text "null" for ever.
   */
  function StringEnd(text: string, pos: nat, quote: char): (r: StringScan)
    requires pos <= |text|
    ensures r.Closed? ==> pos < r.end <= |text| && text[r.end - 1] == quote
    decreases |text| - pos
  {
    if pos == |text| then RunsOff
    else if text[pos] == '\\' then
      if pos + 1 == |text| then ReadsNull
      else StringEnd(text, pos + 2, quote)
    else if text[pos] == '\n' then CutByNewline
    else if text[pos] == quote then Closed(pos + 1)
    else StringEnd(text, pos + 1, quote)
  }

  /**
   * The characters a string body stands for, as `read_string` appends
   * them: a backslash and the next character are one escape, any other
   * character stands for itself.
   */
  function Decode(body: string): string
    decreases |body|
  {
    if body == [] then []
    else if body[0] == '\\' && |body| >= 2 then [Escape(body[1])] + Decode(body[2..])
    else [body[0]] + Decode(body[1..])
  }

  /** A string body that `read_string` reads through: no raw newline, no unescaped quote, no lone final backslash. */
  predicate Plain(body: string, quote: char)
    decreases |body|
  {
    body == []
    || (body[0] == '\\' && |body| >= 2 && Plain(body[2..], quote))
    || (body[0] != '\\' && body[0] != '\n' && body[0] != quote && Plain(body[1..], quote))
  }

  /** Reading a plain body ends just after the quote that follows it. */
  lemma {:induction false} ScanPlain(text: string, pos: nat, quote: char, body: string)
    requires pos + |body| < |text| && text[pos + |body|] == quote
    requires body == text[pos..pos + |body|]
    requires Plain(body, quote) && quote != '\\' && quote != '\n'
    ensures StringEnd(text, pos, quote) == Closed(pos + |body| + 1)
    decreases |body|
  {
    if body != [] {
      if body[0] == '\\' && |body| >= 2 {
        assert text[pos] == body[0];
        assert body[2..] == text[pos + 2..pos + 2 + |body[2..]|];
        ScanPlain(text, pos + 2, quote, body[2..]);
      } else {
        assert text[pos] == body[0];
        assert body[1..] == text[pos + 1..pos + 1 + |body[1..]|];
        ScanPlain(text, pos + 1, quote, body[1..]);
      }
    }
  }

  /** A raw newline before the closing quote cuts the string. */
  lemma {:induction false} ScanUnterminated(text: string, pos: nat, quote: char, body: string)
    requires pos + |body| < |text| && text[pos + |body|] == '\n'
    requires forall k :: 0 <= k < |body| ==> text[pos + k] == body[k]
    requires forall k :: 0 <= k < |body| ==> body[k] != '\\' && body[k] != '\n' && body[k] != quote
    ensures StringEnd(text, pos, quote) == CutByNewline
    decreases |body|
  {
    if body != [] {
      assert text[pos] == body[0];
      ScanUnterminated(text, pos + 1, quote, body[1..]);
    }
  }

  // ---------------------------------------------------------------------
  // Classifying words

  /** `read_identifier_al`: value keyword, then "and", then call keyword, then keyword, then identifier. */
  function AlWordKind(w: string): (k: TokenKind)
    ensures k in {KW_Val_AL, Operator, KW_Call_AL, KW_AL, Identifier}
  {
    if w in KEYWORDS_VALUE_AL then KW_Val_AL
    else if w in OPERATORS_AL then Operator
    else if w in CALLS_AL then KW_Call_AL
    else if w in KEYWORDS_AL then KW_AL
    else Identifier
  }

  /** `read_identifier_at`: an attribute keyword, or else an identifier. */
  function AtWordKind(w: string): (k: TokenKind)
    ensures k == KW_AT <==> w in KEYWORDS_AT
    ensures k != KW_AT ==> k == Identifier
  {
    if w in KEYWORDS_AT then KW_AT else Identifier
  }

  /**
   * What each word becomes in the logic language: the value keywords are
   * values and "and" is the one word operator; a keyword is a call exactly
   * when it is in the call list, the other keywords are plain keywords and
   * everything else is an identifier.
   */
  lemma AlValueWords(w: string)
    requires IsWord(w)
    ensures AlWordKind(w) == KW_Val_AL <==> w in {"true", "false", "undefined"}
    ensures AlWordKind(w) == Operator <==> w == "and"
  {
    if w in OPERATORS_AL {
      assert IsIdentStart(w[0]);
    }
  }

  lemma AlCallWords(w: string)
    requires IsWord(w)
    ensures AlWordKind(w) == KW_Call_AL <==> w in CALLS_AL
  {
    if w in OPERATORS_AL {
      assert IsIdentStart(w[0]);
    }
  }

  lemma AlPlainKeywords(w: string)
    requires IsWord(w)
    ensures AlWordKind(w) == KW_AL <==> w in {"def", "rule", "action", "conditions"}
  {
    if w in OPERATORS_AL {
      assert IsIdentStart(w[0]);
    }
    assert w in KEYWORDS_AL <==> w in KEYWORDS_VALUE_AL || w in ["and", "def", "rule", "action", "conditions"] || w in CALLS_AL;
  }

  lemma AlIdentifiers(w: string)
    requires IsWord(w)
    ensures AlWordKind(w) == Identifier <==> w !in KEYWORDS_AL
  {
    if w in OPERATORS_AL {
      assert IsIdentStart(w[0]);
    }
  }

  /**
   * Words the parser asks for but the tokenizer never marks as keywords:
   * "answer", "for", "do" and "end" come out as identifiers.
   */
  lemma UnlistedWords()
    ensures AlWordKind("answer") == Identifier && AlWordKind("for") == Identifier
    ensures AlWordKind("do") == Identifier && AlWordKind("end") == Identifier
  {
    UnlistedWord("answer");
    UnlistedWord("for");
    UnlistedWord("do");
    UnlistedWord("end");
  }

  lemma UnlistedWord(w: string)
    requires w in ["answer", "for", "do", "end"]
    ensures AlWordKind(w) == Identifier
  {
  }

  /** "col" is no attribute keyword. */
  lemma UnlistedAttribute()
    ensures AtWordKind("col") == Identifier
  {
  }

  /**
   * The operators: no operator grows past two characters, and the ones of
   * two characters are exactly "==", "<=", ">=" and "!=", each the growth
   * of a one-character operator or of "=".
   */
  lemma OperatorShapes(op: string)
    requires op in OPERATORS_AL && op != "and"
    ensures 1 <= |op| <= 2
    ensures |op| == 2 <==> op in {"==", "<=", ">=", "!="}
  {
  }

  /** Starting from any character, growth takes at most one more. */
  lemma GrowAtMostTwo(text: string, pos: nat, c: char)
    requires pos <= |text|
    ensures Grow(text, pos, [c]).1 <= pos + 1
  {
    if pos < |text| && [c] + [text[pos]] in OPERATORS_AL {
      var op := [c] + [text[pos]];
      if pos + 1 < |text| {
        var longer := op + [text[pos + 1]];
        assert longer[..2] == op;
        assert |longer| == 3 && longer[..2] != "an";
      }
    }
  }
}
