/**
 * What each production of the recursive-descent parser (Parser.ts) gives,
 * as a function of the token stream and the position of the current
 * token: the node and the position after it, or the error it throws.
 *
 * The imperative `Parsing.Parser` is proved against these functions; the
 * lemmas at the end state what the grammar promises (precedence climbing,
 * spans, assignment, property access, sections, rows and columns).
 */
module Grammar {
  import opened Utils
  import opened Tree

  /**
   * A token stream as the tokenizer delivers it: it ends with the eof
   * token, which the tokenizer keeps giving once the text is used up.
   */
  predicate WellEnded(ts: seq<Token>)
  {
    |ts| >= 1 && ts[|ts| - 1].kind == EOF && ts[|ts| - 1].value == "eof"
  }

  /** A production's outcome: the value and the position of the token after it, or the error. */
  datatype Parsed<T> = Done(value: T, next: nat) | Stop(error: Failure) {
    predicate IsFailure() { Stop? }
    function PropagateFailure<U>(): Parsed<U>
      requires Stop?
    {
      Stop(error)
    }
    function Extract(): (T, nat)
      requires Done?
    {
      (value, next)
    }
  }

  // ---------------------------------------------------------------------
  // The messages the parser throws with

  const BAD_ATTRIBUTE_VALUE: string := "SyntaxError: value of an attribute must be either a string or an embedded expression, but found "
  const BAD_ATTRIBUTE_NAME: string := "SyntaxError: Invalid attribute name "
  const BAD_PROPERTY: string := "SyntaxError: invalid property name"
  const BAD_ASSIGNMENT: string := "SyntaxError: Invalid assignment"
  const BAD_TEXT: string := "SyntaxError: Invalid question text"
  const NOT_IMPLEMENTED: string := "Error: not yet implemented"
  const UNEXPECTED: string := "unexpected token: "
  const NOT_EXPECTING: string := "SyntaxError: not expecting "
  const EXPECTING: string := "SyntaxError: expecting "
  const BUT_FOUND: string := " but found "

  // ---------------------------------------------------------------------
  // The cursor (Parser.ts:25-116)

  /** `is(type, val)`: the current token has the kind, and the value when one is given. */
  predicate Is(ts: seq<Token>, i: nat, kind: TokenKind, val: Option<string>)
    requires i < |ts|
  {
    ts[i].kind == kind && (val.None? || ts[i].value == val.value)
  }

  /** The description `check_token` gives an expected kind when no value is given. */
  function Expecting(kind: TokenKind): Option<string>
  {
    match kind
    case QAS => Some("<<")
    case QAE => Some(">>")
    case EES => Some("[")
    case EEE => Some("]")
    case ALBS => Some("<%")
    case ALBE => Some("%>")
    case Num => Some("number")
    case String => Some("string")
    case Operator => Some("operator")
    case Text => Some("text")
    case Identifier => Some("identifier / name")
    case _ => None
  }

  /** `js_error(message, tok.tokLine, tok.tokPos)`. */
  function ErrorAt(message: string, tok: Token): Failure
  {
    ParseError(message, tok.line, tok.pos)
  }

  /**
   * The error `check_token` raises at `found`: "expecting" the value asked
   * for, or else the kind's description, "but found" the token's value;
   * "not expecting" the token when the kind has no description.
   */
  function CheckFailure(found: Token, kind: TokenKind, val: Option<string>): Failure
  {
    var v := if val.Some? && val.value != "" then val else Expecting(kind);
    if v.Some? then ErrorAt(EXPECTING + v.value + BUT_FOUND + found.value, found)
    else ErrorAt(NOT_EXPECTING + found.value, found)
  }

  /** `match_token`: the current token when it is as asked, and the cursor moved past it. */
  function MatchToken(ts: seq<Token>, i: nat, kind: TokenKind, val: Option<string>): (r: Parsed<Token>)
    requires WellEnded(ts) && i < |ts| && kind != EOF
    ensures r.Done? <==> Is(ts, i, kind, val)
    ensures r.Done? ==> r.value == ts[i] && r.next == i + 1 < |ts|
    ensures r.Stop? ==> r.error == CheckFailure(ts[i], kind, val)
  {
    if Is(ts, i, kind, val) then Done(ts[i], i + 1) else Stop(CheckFailure(ts[i], kind, val))
  }

  /** `unexpected()`. */
  function Unexpected(tok: Token): Failure
  {
    ErrorAt(UNEXPECTED + tok.value, tok)
  }

  // ---------------------------------------------------------------------
  // Expressions (Parser.ts:118-295)

  /** The levels `PRECEDENCE` is built from, lowest first (Parser.ts:244-250). */
  const LEVELS: seq<seq<string>> := [["and"], ["==", "!="], ["<", ">", "<=", ">="], ["+", "-"], ["*", "/", "%"]]

  /**
   * The table the nested loops of Parser.ts:235-243 fill: an operator maps
   * to one more than the index of the level holding it, a later level
   * overwriting an earlier one; an operator in no level is not in the table.
   */
  function LevelOf(levels: seq<seq<string>>, op: string): (r: Option<nat>)
    ensures r.Some? <==> exists k :: 0 <= k < |levels| && op in levels[k]
    ensures r.Some? ==> 1 <= r.value <= |levels| && op in levels[r.value - 1]
    ensures r.Some? ==> forall k :: r.value <= k < |levels| ==> op !in levels[k]
  {
    if levels == [] then None
    else
      var last := |levels| - 1;
      if op in levels[last] then Some(last + 1) else LevelOf(levels[..last], op)
  }

  function Precedence(op: string): Option<nat>
  {
    LevelOf(LEVELS, op)
  }

  /** `expr_atom` (Parser.ts:196-233). */
  function Atom(ts: seq<Token>, i: nat): (r: Parsed<Node>)
    requires WellEnded(ts) && i < |ts|
    ensures r.Done? ==> i < r.next < |ts|
    decreases |ts| - i, 1
  {
    var tok := ts[i];
    match tok.kind
    case Punc => if tok.value == "(" then Paren(ts, i) else Stop(Unexpected(tok))
    case Identifier => PropAccess(ts, MkSymbolRef(tok), i + 1)
    case KW_AL => if tok.value == "answer" then AnswerHas(ts, i) else Stop(Unexpected(tok))
    case _ => Literal(ts, i)
  }

  /** The other cases of `expr_atom`: a number, a string, `false`, `true` or `undefined`, one token each. */
  function Literal(ts: seq<Token>, i: nat): (r: Parsed<Node>)
    requires WellEnded(ts) && i < |ts|
    ensures r.Done? ==> r.next == i + 1 < |ts|
  {
    var tok := ts[i];
    match tok.kind
    case Num => Done(MkNum(tok), i + 1)
    case String => Done(MkString(tok), i + 1)
    case KW_Val_AL =>
      if tok.value == "false" then Done(False(tok, tok), i + 1)
      else if tok.value == "true" then Done(True(tok, tok), i + 1)
      else if tok.value == "undefined" then Done(Undefined(tok, tok), i + 1)
      else Stop(Unexpected(tok))
    case _ => Stop(Unexpected(tok))
  }

  /**
   * A parenthesised expression: its node is widened to span the
   * parentheses, and property accesses may follow.
   */
  function Paren(ts: seq<Token>, i: nat): (r: Parsed<Node>)
    requires WellEnded(ts) && i < |ts| && Is(ts, i, Punc, Some("("))
    ensures r.Done? ==> i < r.next < |ts|
    decreases |ts| - i, 0
  {
    var ex :- Expr(ts, i + 1);
    CloseParen(ts, ts[i], ex.0, ex.1)
  }

  /** The ")" after the expression `ex` opened by `open`, and the property accesses after it. */
  function CloseParen(ts: seq<Token>, open: Token, ex: Node, j: nat): (r: Parsed<Node>)
    requires WellEnded(ts) && j < |ts|
    ensures r.Done? ==> j < r.next < |ts|
  {
    var close :- MatchToken(ts, j, Punc, Some(")"));
    PropAccess(ts, Respan(ex, open, close.0), close.1)
  }

  /** The node with its span set to run from `s` to `e`, whatever kind of node it is. */
  function Respan(n: Node, s: Token, e: Token): Node
  {
    n.(start := s, end := e)
  }

  /**
   * `maybe_propAccess` (Parser.ts:118-130): `.name` after a symbol or a
   * property access nests one more access to the left. The source builds
   * an `AST_Dot`, which Tree.ts does not define; here it is `Dot`, from
   * the container's start to the name.
   */
  function PropAccess(ts: seq<Token>, container: Node, i: nat): (r: Parsed<Node>)
    requires WellEnded(ts) && i < |ts|
    ensures r.Done? ==> i <= r.next < |ts|
    ensures r.Done? && r.next == i ==> r.value == container
    ensures r.Done? && r.next != i ==> r.value.Dot? && (container.Dot? || container.SymbolRef?)
    ensures r.Done? ==> r.value.start == container.start
    decreases |ts| - i, 0
  {
    if Is(ts, i, Punc, Some(".")) && (container.Dot? || container.SymbolRef?) then
      var prop := ts[i + 1];
      if prop.kind == Identifier then PropAccess(ts, Dot(container.start, container, prop.value, prop), i + 2)
      else Stop(ErrorAt(BAD_PROPERTY, prop))
    else Done(container, i)
  }

  /** `_answer_has` (Parser.ts:180-194): the value after the question decides, whatever its kind. */
  function AnswerHas(ts: seq<Token>, i: nat): (r: Parsed<Node>)
    requires WellEnded(ts) && i < |ts|
    ensures r.Done? ==> i < r.next < |ts|
    decreases |ts| - i, 0
  {
    var start := ts[i];
    var a :- MatchToken(ts, i, KW_AL, Some("answer"));
    var f :- MatchToken(ts, a.1, KW_AL, Some("for"));
    var q :- MatchToken(ts, f.1, Identifier, None);
    AnswerVerb(ts, start, q.0, q.1)
  }

  /** The verb of `_answer_has` after the question `q`, and its arguments. */
  function AnswerVerb(ts: seq<Token>, start: Token, q: Token, j: nat): (r: Parsed<Node>)
    requires WellEnded(ts) && j < |ts|
    ensures r.Done? ==> j < r.next < |ts|
    decreases |ts| - j, 0
  {
    var verb := ts[j];
    if verb.value in {"has", "has_not", "only_has"} then
      var args :- Args(ts, j + 1);
      Done(HasAnswer(start, MkSymbolRef(q), args.0, ts[args.1 - 1]), args.1)
    else Stop(Unexpected(verb))
  }

  /** `_args_list` (Parser.ts:168-178): "(", one expression or more separated by ",", ")". */
  function Args(ts: seq<Token>, i: nat): (r: Parsed<seq<Node>>)
    requires WellEnded(ts) && i < |ts|
    ensures r.Done? ==> i < r.next < |ts| && |r.value| >= 1
    decreases |ts| - i, 0
  {
    var open :- MatchToken(ts, i, Punc, Some("("));
    var first :- Expr(ts, open.1);
    ArgsRest(ts, [first.0], first.1)
  }

  /** The loop of `_args_list`, `acc` holding the arguments read so far. */
  function ArgsRest(ts: seq<Token>, acc: seq<Node>, i: nat): (r: Parsed<seq<Node>>)
    requires WellEnded(ts) && i < |ts|
    ensures r.Done? ==> i < r.next < |ts| && |r.value| >= |acc|
    decreases |ts| - i, 1
  {
    if Is(ts, i, Punc, Some(")")) then Done(acc, i + 1)
    else
      var arg :- CommaArg(ts, i);
      ArgsRest(ts, acc + [arg.0], arg.1)
  }

  /** One more argument: "," and an expression. */
  function CommaArg(ts: seq<Token>, i: nat): (r: Parsed<Node>)
    requires WellEnded(ts) && i < |ts|
    ensures r.Done? ==> i < r.next < |ts|
    decreases |ts| - i, 0
  {
    var comma :- MatchToken(ts, i, Punc, Some(","));
    Expr(ts, comma.1)
  }

  /**
   * `expr_op` (Parser.ts:254-263): while the current token is an operator
   * whose level is above `minPrec`, read an atom, let the operators above
   * that level take it as their left operand, and fold it into `left`.
   * An operator outside the table ("=", "!") stops the loop unread.
   */
  function Ops(ts: seq<Token>, left: Node, minPrec: nat, i: nat): (r: Parsed<Node>)
    requires WellEnded(ts) && i < |ts|
    ensures r.Done? ==> i <= r.next < |ts|
    decreases |ts| - i, 0
  {
    var tok := ts[i];
    var prec := if tok.kind == Operator then Precedence(tok.value) else None;
    if prec.Some? && prec.value > minPrec then
      var right :- Operand(ts, prec.value, i + 1);
      Ops(ts, Binary(left.start, left, tok.value, right.0, right.0.end), minPrec, right.1)
    else Done(left, i)
  }

  /** `expr_op(expr_atom(), prec)`: an atom and the operators above `prec` after it. */
  function Operand(ts: seq<Token>, prec: nat, i: nat): (r: Parsed<Node>)
    requires WellEnded(ts) && i < |ts|
    ensures r.Done? ==> i < r.next < |ts|
    decreases |ts| - i, 2
  {
    var a :- Atom(ts, i);
    Ops(ts, a.0, prec, a.1)
  }

  /** `expr_ops`: an atom and all the operators after it. */
  function ExprOps(ts: seq<Token>, i: nat): (r: Parsed<Node>)
    requires WellEnded(ts) && i < |ts|
    ensures r.Done? ==> i < r.next < |ts|
    decreases |ts| - i, 3
  {
    Operand(ts, 0, i)
  }

  /**
   * `expression`, that is `maybe_assign` (Parser.ts:280-295): "=" after a
   * bare symbol makes an assignment whose right side is read by
   * `expr_ops`; "=" after anything else is an invalid assignment.
   */
  function Expr(ts: seq<Token>, i: nat): (r: Parsed<Node>)
    requires WellEnded(ts) && i < |ts|
    ensures r.Done? ==> i < r.next < |ts|
    decreases |ts| - i, 4
  {
    var start := ts[i];
    var left :- ExprOps(ts, i);
    if Is(ts, left.1, Operator, Some("=")) then
      if IsAssignable(left.0) then
        var right :- ExprOps(ts, left.1 + 1);
        Done(MkAssign(start, left.0, "=", right.0, ts[right.1 - 1]), right.1)
      else Stop(ErrorAt(BAD_ASSIGNMENT, ts[left.1]))
    else Done(left.0, left.1)
  }

  /** `is_assignable`: only a bare symbol can be assigned to. */
  predicate IsAssignable(n: Node)
  {
    n.SymbolRef?
  }

  // ---------------------------------------------------------------------
  // Statements (Parser.ts:414-547)

  /**
   * `simple_statement` (Parser.ts:425-427): an expression wrapped as a
   * statement, through the guard of the `AST_SimpleStatement` constructor.
   */
  function Simple(ts: seq<Token>, i: nat): (r: Parsed<Node>)
    requires WellEnded(ts) && i < |ts|
    ensures r.Done? ==> i < r.next < |ts|
  {
    var e :- Expr(ts, i);
    match MkSimpleStatement(ts[i], e.0, ts[e.1 - 1])
    case Ok(s) => Done(s, e.1)
    case Err(f) => Stop(f)
  }

  /** `_condition`: "|" and a simple statement. */
  function Condition(ts: seq<Token>, i: nat): (r: Parsed<Node>)
    requires WellEnded(ts) && i < |ts|
    ensures r.Done? ==> i < r.next < |ts|
  {
    var bar :- MatchToken(ts, i, Punc, Some("|"));
    Simple(ts, bar.1)
  }

  /** `block_statement`: "{", simple statements, "}". */
  function Block(ts: seq<Token>, i: nat): (r: Parsed<Node>)
    requires WellEnded(ts) && i < |ts|
    ensures r.Done? ==> i < r.next < |ts|
  {
    var open :- MatchToken(ts, i, Punc, Some("{"));
    BlockRest(ts, ts[i], [], open.1)
  }

  /** The loop of `block_statement`. */
  function BlockRest(ts: seq<Token>, start: Token, acc: seq<Node>, i: nat): (r: Parsed<Node>)
    requires WellEnded(ts) && i < |ts|
    ensures r.Done? ==> i < r.next < |ts|
    decreases |ts| - i
  {
    if Is(ts, i, Punc, Some("}")) then Done(BlockStatement(start, acc, ts[i]), i + 1)
    else
      var s :- Simple(ts, i);
      BlockRest(ts, start, acc + [s.0], s.1)
  }

  /** `_rule`: "rule", a name, ":", conditions up to "{", and the action block. */
  function Rule(ts: seq<Token>, i: nat): (r: Parsed<Node>)
    requires WellEnded(ts) && i < |ts|
    ensures r.Done? ==> i < r.next < |ts|
  {
    var kw :- MatchToken(ts, i, KW_AL, Some("rule"));
    var name :- MatchToken(ts, kw.1, Identifier, None);
    RuleConditions(ts, ts[i], name.0.value, name.1)
  }

  /** The ":" and the first condition of `_rule`, then the rest. */
  function RuleConditions(ts: seq<Token>, start: Token, name: string, j: nat): (r: Parsed<Node>)
    requires WellEnded(ts) && j < |ts|
    ensures r.Done? ==> j < r.next < |ts|
  {
    var colon :- MatchToken(ts, j, Punc, Some(":"));
    var first :- Condition(ts, colon.1);
    RuleRest(ts, start, name, [first.0], first.1)
  }

  /** The loop of `_rule` and the block after it. */
  function RuleRest(ts: seq<Token>, start: Token, name: string, conds: seq<Node>, i: nat): (r: Parsed<Node>)
    requires WellEnded(ts) && i < |ts|
    ensures r.Done? ==> i < r.next < |ts|
    decreases |ts| - i
  {
    if Is(ts, i, Punc, Some("{")) then
      var b :- Block(ts, i);
      Done(RuleDef(start, name, conds, b.0, ts[b.1 - 1]), b.1)
    else
      var c :- Condition(ts, i);
      RuleRest(ts, start, name, conds + [c.0], c.1)
  }

  /** `_action`: "action", a name and a block. */
  function Action(ts: seq<Token>, i: nat): (r: Parsed<Node>)
    requires WellEnded(ts) && i < |ts|
    ensures r.Done? ==> i < r.next < |ts|
  {
    var kw :- MatchToken(ts, i, KW_AL, Some("action"));
    var name :- MatchToken(ts, kw.1, Identifier, None);
    var b :- Block(ts, name.1);
    Done(ActionDef(ts[i], name.0.value, b.0, ts[b.1 - 1]), b.1)
  }

  /**
   * `_condition_set`: "conditions", a name, ":", and conditions until a
   * punctuation "end", which is left unread.
   */
  function ConditionSet(ts: seq<Token>, i: nat): (r: Parsed<Node>)
    requires WellEnded(ts) && i < |ts|
    ensures r.Done? ==> i < r.next < |ts|
  {
    var kw :- MatchToken(ts, i, KW_AL, Some("conditions"));
    var name :- MatchToken(ts, kw.1, Identifier, None);
    ConditionSetConditions(ts, ts[i], name.0.value, name.1)
  }

  /** The ":" and the first condition of `_condition_set`, then the rest. */
  function ConditionSetConditions(ts: seq<Token>, start: Token, name: string, j: nat): (r: Parsed<Node>)
    requires WellEnded(ts) && j < |ts|
    ensures r.Done? ==> j < r.next < |ts|
  {
    var colon :- MatchToken(ts, j, Punc, Some(":"));
    var first :- Condition(ts, colon.1);
    ConditionSetRest(ts, start, name, [first.0], first.1)
  }

  function ConditionSetRest(ts: seq<Token>, start: Token, name: string, conds: seq<Node>, i: nat): (r: Parsed<Node>)
    requires WellEnded(ts) && 0 < i < |ts|
    ensures r.Done? ==> i <= r.next < |ts|
    decreases |ts| - i
  {
    if Is(ts, i, Punc, Some("end")) then Done(ConditionSetDef(start, name, conds, ts[i - 1]), i)
    else
      var c :- Condition(ts, i);
      ConditionSetRest(ts, start, name, conds + [c.0], c.1)
  }

  /** `_def`: "def", a name, and "=" with an initial value, or none. */
  function Def(ts: seq<Token>, i: nat): (r: Parsed<Node>)
    requires WellEnded(ts) && i < |ts|
    ensures r.Done? ==> i < r.next < |ts|
  {
    var kw :- MatchToken(ts, i, KW_AL, Some("def"));
    var name :- MatchToken(ts, kw.1, Identifier, None);
    if Is(ts, name.1, Operator, Some("=")) then
      var init :- ExprOps(ts, name.1 + 1);
      Done(SymbolDec(ts[i], name.0.value, Some(init.0), ts[init.1 - 1]), init.1)
    else Done(SymbolDec(ts[i], name.0.value, None, ts[name.1 - 1]), name.1)
  }

  /** `build_in_func_cmd`: a command keyword and its arguments. */
  function Command(ts: seq<Token>, i: nat): (r: Parsed<Node>)
    requires WellEnded(ts) && i < |ts|
    ensures r.Done? ==> i < r.next < |ts|
  {
    var cmd :- MatchToken(ts, i, KW_Call_AL, None);
    var args :- Args(ts, cmd.1);
    Done(BuiltInCmdCall(ts[i], cmd.0.value, args.0, ts[args.1 - 1]), args.1)
  }

  /** `_evaluate` and `_do`: the keyword and the name of what to evaluate or do. */
  function Target(ts: seq<Token>, i: nat, word: string): (r: Parsed<Node>)
    requires WellEnded(ts) && i < |ts|
    ensures r.Done? ==> i < r.next < |ts|
  {
    var kw :- MatchToken(ts, i, KW_Call_AL, Some(word));
    var name :- MatchToken(ts, kw.1, Identifier, None);
    var target := MkSymbolRef(name.0);
    Done(if word == "evaluate" then Evaluate(ts[i], target, name.0) else Do(ts[i], target, name.0), name.1)
  }

  /**
   * `statement` (Parser.ts:500-547). Done(None, i) stands for the two ways
   * it falls out of its switch and returns nothing without reading a
   * token: punctuation other than "(", and a call keyword it does not
   * list.
   */
  function Statement(ts: seq<Token>, i: nat): (r: Parsed<Option<Node>>)
    requires WellEnded(ts) && i < |ts|
    ensures r.Done? ==> (r.value.Some? <==> i < r.next) && r.next < |ts|
  {
    var tok := ts[i];
    match tok.kind
    case String => Some'(Simple(ts, i))
    case Num => Some'(Simple(ts, i))
    case KW_Val_AL => Some'(Simple(ts, i))
    case Identifier => Some'(Simple(ts, i))
    case Punc => if tok.value == "(" then Some'(Simple(ts, i)) else Done(None, i)
    case KW_Call_AL =>
      if tok.value == "evaluate" || tok.value == "do" then Some'(Target(ts, i, tok.value))
      else if tok.value in {"go_to", "hide", "terminate", "show_error"} then Some'(Command(ts, i))
      else Done(None, i)
    case KW_AL => Some'(KeywordStatement(ts, i))
    case _ => Stop(Unexpected(tok))
  }

  /** The cases of `statement` for the survey keywords; any other keyword is unexpected. */
  function KeywordStatement(ts: seq<Token>, i: nat): (r: Parsed<Node>)
    requires WellEnded(ts) && i < |ts|
    ensures r.Done? ==> i < r.next < |ts|
  {
    var tok := ts[i];
    if tok.value == "rule" then Rule(ts, i)
    else if tok.value == "action" then Action(ts, i)
    else if tok.value == "conditions" then ConditionSet(ts, i)
    else if tok.value == "def" then Def(ts, i)
    else if tok.value == "answer" then Simple(ts, i)
    else Stop(Unexpected(tok))
  }

  /** A statement that was read. */
  function Some'(r: Parsed<Node>): Parsed<Option<Node>>
  {
    match r
    case Done(n, j) => Done(Some(n), j)
    case Stop(e) => Stop(e)
  }

  /**
   * `interlude` (Parser.ts:549-558): "<%", statements, "%>". When
   * `statement` gives nothing, the loop asks again at the same token for
   * ever. The source passes the statements and the end to
   * `AST_Interlude` one argument early; here they land in `body` and `end`.
   */
  function InterludeOf(ts: seq<Token>, i: nat): (r: Parsed<Component>)
    requires WellEnded(ts) && i < |ts|
    ensures r.Done? ==> i < r.next < |ts|
  {
    var open :- MatchToken(ts, i, ALBS, None);
    InterludeRest(ts, ts[i], [], open.1)
  }

  function InterludeRest(ts: seq<Token>, start: Token, acc: seq<Node>, i: nat): (r: Parsed<Component>)
    requires WellEnded(ts) && i < |ts|
    ensures r.Done? ==> i < r.next < |ts|
    decreases |ts| - i
  {
    if Is(ts, i, ALBE, None) then Done(Interlude(start, acc, ts[i]), i + 1)
    else
      var s :- Statement(ts, i);
      match s.0
      case None => Stop(Diverges("interlude"))
      case Some(n) => InterludeRest(ts, start, acc + [n], s.1)
  }

  // ---------------------------------------------------------------------
  // Questions, sections and options (Parser.ts:297-411)

  /**
   * `attribute` (Parser.ts:297-319): an attribute keyword, with "=" and a
   * string value or without a value, is built-in; an identifier is a
   * custom attribute without a value.
   */
  function Attribute(ts: seq<Token>, i: nat): (r: Parsed<Attr>)
    requires WellEnded(ts) && i < |ts|
    ensures r.Done? ==> i < r.next < |ts|
  {
    var tok := ts[i];
    if Is(ts, i, KW_AT, None) then
      if Is(ts, i + 1, Operator, Some("=")) then AttributeValue(ts, tok, i + 2)
      else Done(Attr(tok, tok.value, None, false, tok), i + 1)
    else if Is(ts, i, Identifier, None) then Done(Attr(tok, tok.value, None, true, tok), i + 1)
    else Stop(ErrorAt(BAD_ATTRIBUTE_NAME + tok.value, tok))
  }

  /** The value after `name =`: a string; an embedded expression is not implemented. */
  function AttributeValue(ts: seq<Token>, name: Token, j: nat): (r: Parsed<Attr>)
    requires WellEnded(ts) && j < |ts|
    ensures r.Done? ==> r.next == j + 1 < |ts|
  {
    if Is(ts, j, String, None) then
      // `expr_atom` on a string token
      var v := MkString(ts[j]);
      Done(Attr(name, name.value, Some(v), false, v.end), j + 1)
    else if Is(ts, j, EES, None) then Stop(Fault(NOT_IMPLEMENTED))
    else Stop(ErrorAt(BAD_ATTRIBUTE_VALUE + ts[j].value, ts[j]))
  }

  /**
   * An attribute keyword, with or without "= string", is a built-in
   * attribute; a bare identifier is a custom attribute without a value.
   */
  lemma AttributeForms(ts: seq<Token>, i: nat)
    requires WellEnded(ts) && i < |ts| && Attribute(ts, i).Done?
    ensures var a := Attribute(ts, i).value;
            a.start == ts[i] && a.name == ts[i].value &&
            (a.isCustom <==> ts[i].kind == Identifier) && (!a.isCustom <==> ts[i].kind == KW_AT)
    ensures var a := Attribute(ts, i).value;
            a.isCustom ==> a.value.None? && Attribute(ts, i).next == i + 1
    ensures var a := Attribute(ts, i).value;
            a.value.Some? ==> Is(ts, i + 1, Operator, Some("=")) && ts[i + 2].kind == String
                              && a.value.value == MkString(ts[i + 2]) && Attribute(ts, i).next == i + 3
  {
    if Is(ts, i, KW_AT, None) {
      if Is(ts, i + 1, Operator, Some("=")) {
        assert ts[i + 2].kind == String;
      }
    }
  }

  /** The loop of `questionAttrib` and `optionAttrib`: attributes up to the closer, which is read. */
  function AttrsRest(ts: seq<Token>, closer: TokenKind, acc: seq<Attr>, i: nat): (r: Parsed<seq<Attr>>)
    requires WellEnded(ts) && i < |ts| && closer != EOF
    ensures r.Done? ==> i < r.next < |ts|
    decreases |ts| - i
  {
    if Is(ts, i, closer, None) then Done(acc, i + 1)
    else
      var a :- Attribute(ts, i);
      AttrsRest(ts, closer, acc + [a.0], a.1)
  }

  /**
   * `attribute()` takes a value only after an Operator "=" (Parser.ts:300),
   * but the attribute modes give "=" as punctuation: an attribute keyword
   * followed by that "=" is read without a value, and the "=" then fails as
   * an attribute name (Parser.ts:318).
   */
  lemma PuncEqualsRefused(ts: seq<Token>, closer: TokenKind, acc: seq<Attr>, i: nat)
    requires WellEnded(ts) && i + 1 < |ts| && closer != EOF && closer != KW_AT && closer != Punc
    requires ts[i].kind == KW_AT && ts[i + 1].kind == Punc && ts[i + 1].value == "="
    ensures AttrsRest(ts, closer, acc, i) == Stop(ErrorAt(BAD_ATTRIBUTE_NAME + "=", ts[i + 1]))
  {
    assert Attribute(ts, i) == Done(Attr(ts[i], ts[i].value, None, false, ts[i]), i + 1);
  }

  /**
   * Without an operator token before the closer, as the attribute modes
   * guarantee, every attribute an attribute block reads has no value.
   */
  lemma {:induction false} AttrsWithoutOperator(ts: seq<Token>, closer: TokenKind, acc: seq<Attr>, i: nat)
    requires WellEnded(ts) && i < |ts| && closer != EOF
    requires forall a :: a in acc ==> a.value.None?
    requires AttrsRest(ts, closer, acc, i).Done?
    requires forall k :: i <= k < AttrsRest(ts, closer, acc, i).next ==> ts[k].kind != Operator
    ensures forall a :: a in AttrsRest(ts, closer, acc, i).value ==> a.value.None?
    decreases |ts| - i
  {
    if !Is(ts, i, closer, None) {
      var a := Attribute(ts, i);
      AttributeForms(ts, i);
      AttrsWithoutOperator(ts, closer, acc + [a.value], a.next);
    }
  }

  /** `questionAttrib` (`<< ... >>`) and `optionAttrib` (`[ ... ]`). */
  function AttrBlock(ts: seq<Token>, opener: TokenKind, closer: TokenKind, i: nat): (r: Parsed<seq<Attr>>)
    requires WellEnded(ts) && i < |ts| && opener != EOF && closer != EOF
    ensures r.Done? ==> i < r.next < |ts|
  {
    var open :- MatchToken(ts, i, opener, None);
    AttrsRest(ts, closer, [], open.1)
  }

  /** `text`: a text token as a string node. */
  function TextNode(ts: seq<Token>, i: nat): (r: Parsed<Node>)
    requires WellEnded(ts) && i < |ts|
    ensures r.Done? ==> r.next == i + 1 < |ts|
  {
    if Is(ts, i, Text, None) then Done(MkString(ts[i]), i + 1)
    else if Is(ts, i, EES, None) then Stop(Fault(NOT_IMPLEMENTED))
    else Stop(ErrorAt(BAD_TEXT, ts[i]))
  }

  /** Where the options of a question stop: eof, "<<" or "<%". */
  predicate EndsOptions(tok: Token)
  {
    tok.kind in {EOF, QAS, ALBS}
  }

  /** Where a run of texts stops: eof, "[", "<%" or "<<". */
  predicate EndsTexts(tok: Token)
  {
    tok.kind in {EOF, OAS, ALBS, QAS}
  }

  /** `_questionTexts` and `optionText`, which are the same loop. */
  function Texts(ts: seq<Token>, acc: seq<Node>, i: nat): (r: Parsed<seq<Node>>)
    requires WellEnded(ts) && i < |ts|
    ensures r.Done? ==> i <= r.next < |ts|
    decreases |ts| - i
  {
    if EndsTexts(ts[i]) then Done(acc, i)
    else
      var t :- TextNode(ts, i);
      Texts(ts, acc + [t.0], t.1)
  }

  /** The loop of `attr.name === "col"` checks in `_options`. */
  function IsColumn(attrs: seq<Attr>): (b: bool)
  {
    if attrs == [] then false else attrs[0].name == "col" || IsColumn(attrs[1..])
  }

  /**
   * `_options` (Parser.ts:367-390): options up to eof, "<<" or "<%", each
   * an option attribute block and its texts; a column when it has an
   * attribute named "col", a row otherwise.
   */
  function Options(ts: seq<Token>, acc: seq<Opt>, i: nat): (r: Parsed<seq<Opt>>)
    requires WellEnded(ts) && i < |ts|
    ensures r.Done? ==> i <= r.next < |ts|
    decreases |ts| - i
  {
    if EndsOptions(ts[i]) then Done(acc, i)
    else
      var o :- OptionAt(ts, i);
      Options(ts, acc + [o.0], o.1)
  }

  /**
   * One option of `_options`: its attribute block and texts, ending at
   * the last text; a column when its attributes include one named "col"
   * (`OptionClassified`).
   */
  function OptionAt(ts: seq<Token>, i: nat): (r: Parsed<Opt>)
    requires WellEnded(ts) && i < |ts|
    ensures r.Done? ==> i < r.next < |ts| && r.value.start == ts[i]
  {
    var attrs :- AttrBlock(ts, OAS, OAE, i);
    OptionBody(ts, ts[i], attrs.0, attrs.1)
  }

  /** The texts of an option after its attribute block `attrs`. */
  function OptionBody(ts: seq<Token>, start: Token, attrs: seq<Attr>, j: nat): (r: Parsed<Opt>)
    requires WellEnded(ts) && 0 < j < |ts|
    ensures r.Done? ==> j <= r.next < |ts| && r.value.start == start && r.value.attributes == attrs
  {
    var texts :- Texts(ts, [], j);
    var end := ts[texts.1 - 1];
    Done(if IsColumn(attrs) then Column(start, texts.0, attrs, end) else Row(start, texts.0, attrs, end), texts.1)
  }

  /** `options.filter(op => op instanceof AST_Row)`. */
  function RowsOf(opts: seq<Opt>): seq<Opt>
  {
    if opts == [] then [] else (if opts[0].Row? then [opts[0]] else []) + RowsOf(opts[1..])
  }

  /** `options.filter(op => op instanceof AST_Column)`. */
  function ColumnsOf(opts: seq<Opt>): seq<Opt>
  {
    if opts == [] then [] else (if opts[0].Column? then [opts[0]] else []) + ColumnsOf(opts[1..])
  }

  /**
   * `question` (Parser.ts:392-411): an attribute block directly followed
   * by "<<" or "<%" is a section; otherwise the texts and options follow
   * and it is a question.
   */
  function QuestionOf(ts: seq<Token>, i: nat): (r: Parsed<Component>)
    requires WellEnded(ts) && i < |ts|
    ensures r.Done? ==> i < r.next < |ts|
  {
    var attrs :- AttrBlock(ts, QAS, QAE, i);
    QuestionBody(ts, ts[i], attrs.0, attrs.1)
  }

  /** What follows the attribute block `attrs` of the question or section opened by `start`. */
  function QuestionBody(ts: seq<Token>, start: Token, attrs: seq<Attr>, j: nat): (r: Parsed<Component>)
    requires WellEnded(ts) && 0 < j < |ts|
    ensures r.Done? ==> j <= r.next < |ts|
  {
    if !Is(ts, j, QAS, None) && !Is(ts, j, ALBS, None) then
      var texts :- Texts(ts, [], j);
      var opts :- Options(ts, [], texts.1);
      Done(Question(start, texts.0, attrs, RowsOf(opts.0), ColumnsOf(opts.0), ts[opts.1 - 1]), opts.1)
    else Done(Section(start, attrs, ts[j - 1]), j)
  }

  /**
   * `parse` (Parser.ts:561-574): questions, sections and interludes up to
   * eof. Any other token is left where it is and the loop runs for ever.
   */
  function ParseRest(ts: seq<Token>, acc: seq<Component>, i: nat): (r: Parsed<seq<Component>>)
    requires WellEnded(ts) && i < |ts|
    ensures r.Done? ==> r.next < |ts| && ts[r.next].kind == EOF
    decreases |ts| - i
  {
    if ts[i].kind == EOF then Done(acc, i)
    else
      var c :- ComponentAt(ts, i);
      ParseRest(ts, acc + [c.0], c.1)
  }

  /**
   * One turn of the loop of `parse`: "<<" starts a question or a section,
   * "<%" an interlude; at any other token the loop turns for ever.
   */
  function ComponentAt(ts: seq<Token>, i: nat): (r: Parsed<Component>)
    requires WellEnded(ts) && i < |ts|
    ensures r.Done? ==> i < r.next < |ts|
  {
    if ts[i].kind == QAS then QuestionOf(ts, i)
    else if ts[i].kind == ALBS then InterludeOf(ts, i)
    else Stop(Diverges("parse"))
  }

  /** The whole survey: `parse` from the first token. */
  function Parse(ts: seq<Token>): (r: Parsed<seq<Component>>)
    requires WellEnded(ts)
    ensures r.Done? ==> r.next < |ts| && ts[r.next].kind == EOF
  {
    ParseRest(ts, [], 0)
  }

  // ---------------------------------------------------------------------
  // Properties of the expression grammar

  /** The table built from `LEVELS` holds exactly the five levels, "and" lowest. */
  lemma PrecedenceTable(op: string)
    ensures Precedence(op) ==
      if op == "and" then Some(1)
      else if op in ["==", "!="] then Some(2)
      else if op in ["<", ">", "<=", ">="] then Some(3)
      else if op in ["+", "-"] then Some(4)
      else if op in ["*", "/", "%"] then Some(5)
      else None
  {
    var l4, l3, l2, l1 := LEVELS[..4], LEVELS[..3], LEVELS[..2], LEVELS[..1];
    assert l4[..3] == l3 && l3[..2] == l2 && l2[..1] == l1 && l1[..0] == [];
    assert LevelOf(LEVELS, op) == if op in LEVELS[4] then Some(5) else LevelOf(l4, op);
    assert LevelOf(l4, op) == if op in LEVELS[3] then Some(4) else LevelOf(l3, op);
    assert LevelOf(l3, op) == if op in LEVELS[2] then Some(3) else LevelOf(l2, op);
    assert LevelOf(l2, op) == if op in LEVELS[1] then Some(2) else LevelOf(l1, op);
    assert LevelOf(l1, op) == if op in LEVELS[0] then Some(1) else None;
  }

  /** A token that is an atom by itself when no "." follows it: a number, a string or a name. */
  predicate Leaf(tok: Token)
  {
    tok.kind in {Num, String, Identifier}
  }

  function LeafNode(tok: Token): Node
    requires Leaf(tok)
  {
    if tok.kind == Num then MkNum(tok) else if tok.kind == String then MkString(tok) else MkSymbolRef(tok)
  }

  lemma AtomLeaf(ts: seq<Token>, k: nat)
    requires WellEnded(ts) && k < |ts| && Leaf(ts[k])
    requires !Is(ts, k + 1, Punc, Some("."))
    ensures Atom(ts, k) == Done(LeafNode(ts[k]), k + 1)
  {
  }

  /** The level of an operator token, None for any other token. */
  function LevelAt(ts: seq<Token>, k: nat): Option<nat>
    requires k < |ts|
  {
    if ts[k].kind == Operator then Precedence(ts[k].value) else None
  }

  /** `a op1 b op2 c` with three leaves, two operators in the table and no operator after `c`. */
  predicate TwoOps(ts: seq<Token>, i: nat)
  {
    i + 5 < |ts| && Leaf(ts[i]) && Leaf(ts[i + 2]) && Leaf(ts[i + 4])
    && LevelAt(ts, i + 1).Some? && LevelAt(ts, i + 3).Some? && LevelAt(ts, i + 5).None?
    && !Is(ts, i + 5, Punc, Some("."))
  }

  /**
   * When the second operator is not above the first, the first is folded
   * before the second is read: `1-2-3` is `(1-2)-3`.
   */
  lemma FoldsLeft(ts: seq<Token>, i: nat)
    requires WellEnded(ts) && TwoOps(ts, i)
    requires LevelAt(ts, i + 3).value <= LevelAt(ts, i + 1).value
    ensures var a, b, c := LeafNode(ts[i]), LeafNode(ts[i + 2]), LeafNode(ts[i + 4]);
            ExprOps(ts, i) == Done(Binary(ts[i], Binary(ts[i], a, ts[i + 1].value, b, ts[i + 2]), ts[i + 3].value, c, ts[i + 4]), i + 5)
  {
    var a, b, c := LeafNode(ts[i]), LeafNode(ts[i + 2]), LeafNode(ts[i + 4]);
    var p1, p2 := LevelAt(ts, i + 1).value, LevelAt(ts, i + 3).value;
    var ab := Binary(ts[i], a, ts[i + 1].value, b, ts[i + 2]);
    var abc := Binary(ts[i], ab, ts[i + 3].value, c, ts[i + 4]);
    assert ExprOps(ts, i) == Ops(ts, a, 0, i + 1) by { AtomLeaf(ts, i); }
    assert Ops(ts, a, 0, i + 1) == Ops(ts, ab, 0, i + 3) by {
      AtomLeaf(ts, i + 2);
      assert Ops(ts, b, p1, i + 3) == Done(b, i + 3);
    }
    assert Ops(ts, ab, 0, i + 3) == Ops(ts, abc, 0, i + 5) by {
      AtomLeaf(ts, i + 4);
      assert Ops(ts, c, p2, i + 5) == Done(c, i + 5);
    }
  }

  /**
   * When the second operator is above the first, it takes the middle
   * operand first: `1+2*3` is `1+(2*3)` and `a and b == c` is `a and (b==c)`.
   */
  lemma HigherBindsFirst(ts: seq<Token>, i: nat)
    requires WellEnded(ts) && TwoOps(ts, i)
    requires LevelAt(ts, i + 1).value < LevelAt(ts, i + 3).value
    ensures var a, b, c := LeafNode(ts[i]), LeafNode(ts[i + 2]), LeafNode(ts[i + 4]);
            ExprOps(ts, i) == Done(Binary(ts[i], a, ts[i + 1].value, Binary(ts[i + 2], b, ts[i + 3].value, c, ts[i + 4]), ts[i + 4]), i + 5)
  {
    var a, b, c := LeafNode(ts[i]), LeafNode(ts[i + 2]), LeafNode(ts[i + 4]);
    var p1, p2 := LevelAt(ts, i + 1).value, LevelAt(ts, i + 3).value;
    var bc := Binary(ts[i + 2], b, ts[i + 3].value, c, ts[i + 4]);
    var abc := Binary(ts[i], a, ts[i + 1].value, bc, ts[i + 4]);
    assert ExprOps(ts, i) == Ops(ts, a, 0, i + 1) by { AtomLeaf(ts, i); }
    assert Ops(ts, b, p1, i + 3) == Done(bc, i + 5) by {
      AtomLeaf(ts, i + 4);
      assert Ops(ts, c, p2, i + 5) == Done(c, i + 5);
      assert Ops(ts, b, p1, i + 3) == Ops(ts, bc, p1, i + 5);
    }
    assert Ops(ts, a, 0, i + 1) == Ops(ts, abc, 0, i + 5) by { AtomLeaf(ts, i + 2); }
  }

  /** The three readings the levels give, on leaves `a`, `b`, `c`. */
  lemma ClimbingExamples(ts: seq<Token>, i: nat)
    requires WellEnded(ts) && TwoOps(ts, i)
    ensures var r := ExprOps(ts, i);
            ts[i + 1].value == "-" && ts[i + 3].value == "-" ==> r.Done? && r.value.Binary? && r.value.left.Binary?
    ensures var r := ExprOps(ts, i);
            ts[i + 1].value == "+" && ts[i + 3].value == "*" ==> r.Done? && r.value.Binary? && r.value.right.Binary?
    ensures var r := ExprOps(ts, i);
            ts[i + 1].value == "and" && ts[i + 3].value == "==" ==> r.Done? && r.value.Binary? && r.value.right.Binary?
  {
    PrecedenceTable(ts[i + 1].value);
    PrecedenceTable(ts[i + 3].value);
    if LevelAt(ts, i + 3).value <= LevelAt(ts, i + 1).value {
      FoldsLeft(ts, i);
    } else {
      HigherBindsFirst(ts, i);
    }
  }

  /**
   * `n` is `left` with operators folded onto it: every Binary on its left
   * spine starts where `left` starts and ends where its right operand ends.
   */
  predicate Spine(n: Node, left: Node)
    decreases n
  {
    n == left || (n.Binary? && n.start == left.start && n.end == n.right.end && Spine(n.left, left))
  }

  lemma {:induction false} SpineTrans(n: Node, mid: Node, left: Node)
    requires Spine(n, mid) && Spine(mid, left) && mid.start == left.start
    ensures Spine(n, left)
    decreases n
  {
    if n != mid {
      SpineTrans(n.left, mid, left);
    }
  }

  /** Each Binary node `expr_op` builds spans its left operand's start to its right operand's end. */
  lemma {:induction false} OpsSpans(ts: seq<Token>, left: Node, minPrec: nat, i: nat)
    requires WellEnded(ts) && i < |ts|
    ensures Ops(ts, left, minPrec, i).Done? ==> Spine(Ops(ts, left, minPrec, i).value, left)
    decreases |ts| - i
  {
    var tok := ts[i];
    var prec := if tok.kind == Operator then Precedence(tok.value) else None;
    if prec.Some? && prec.value > minPrec {
      var right := Operand(ts, prec.value, i + 1);
      if right.Done? {
        var b := Binary(left.start, left, tok.value, right.value, right.value.end);
        assert Ops(ts, left, minPrec, i) == Ops(ts, b, minPrec, right.next);
        OpsSpans(ts, b, minPrec, right.next);
        if Ops(ts, b, minPrec, right.next).Done? {
          SpineTrans(Ops(ts, b, minPrec, right.next).value, b, left);
        }
      }
    }
  }

  /** "=" and "!" are not in the table, so `expr_op` stops before them without reading them. */
  lemma UnlistedOperatorsStop(ts: seq<Token>, left: Node, minPrec: nat, i: nat)
    requires WellEnded(ts) && i < |ts|
    requires Is(ts, i, Operator, Some("=")) || Is(ts, i, Operator, Some("!"))
    ensures Ops(ts, left, minPrec, i) == Done(left, i)
  {
    PrecedenceTable(ts[i].value);
  }

  /** Each assignment in an expression assigns to a bare symbol; only expression nodes occur. */
  predicate ExprTree(n: Node)
    decreases n
  {
    match n
    case Binary(_, l, _, r, _) => ExprTree(l) && ExprTree(r)
    case Assign(_, l, r, _) => IsAssignable(l) && ExprTree(r)
    case Dot(_, c, _, _) => ExprTree(c)
    case HasAnswer(_, q, answers, _) => q.SymbolRef? && forall k :: 0 <= k < |answers| ==> ExprTree(answers[k])
    case SymbolRef(_, _, _) => true
    case Str(_, _, _) => true
    case Number(_, _, _) => true
    case True(_, _) => true
    case False(_, _) => true
    case Undefined(_, _) => true
    case _ => false
  }

  lemma RespanKeepsTree(n: Node, s: Token, e: Token)
    ensures ExprTree(Respan(n, s, e)) == ExprTree(n)
  {
  }

  lemma {:induction false} ExprIsTree(ts: seq<Token>, i: nat)
    requires WellEnded(ts) && i < |ts|
    ensures Expr(ts, i).Done? ==> ExprTree(Expr(ts, i).value)
    decreases |ts| - i, 4
  {
    ExprOpsIsTree(ts, i);
    var left := ExprOps(ts, i);
    if left.Done? && Is(ts, left.next, Operator, Some("=")) && IsAssignable(left.value) {
      ExprOpsIsTree(ts, left.next + 1);
    }
  }

  lemma {:induction false} ExprOpsIsTree(ts: seq<Token>, i: nat)
    requires WellEnded(ts) && i < |ts|
    ensures ExprOps(ts, i).Done? ==> ExprTree(ExprOps(ts, i).value)
    decreases |ts| - i, 3
  {
    OperandIsTree(ts, 0, i);
  }

  lemma {:induction false} OperandIsTree(ts: seq<Token>, prec: nat, i: nat)
    requires WellEnded(ts) && i < |ts|
    ensures Operand(ts, prec, i).Done? ==> ExprTree(Operand(ts, prec, i).value)
    decreases |ts| - i, 2
  {
    AtomIsTree(ts, i);
    var a := Atom(ts, i);
    if a.Done? {
      OpsIsTree(ts, a.value, prec, a.next);
    }
  }

  lemma {:induction false} AtomIsTree(ts: seq<Token>, i: nat)
    requires WellEnded(ts) && i < |ts|
    ensures Atom(ts, i).Done? ==> ExprTree(Atom(ts, i).value)
    decreases |ts| - i, 1
  {
    var tok := ts[i];
    if tok.kind == Punc && tok.value == "(" {
      ParenIsTree(ts, i);
      assert Atom(ts, i) == Paren(ts, i);
    } else if tok.kind == Identifier {
      PropAccessIsTree(ts, MkSymbolRef(tok), i + 1);
    } else if tok.kind == KW_AL && tok.value == "answer" {
      AnswerHasIsTree(ts, i);
    }
  }

  lemma {:induction false} ParenIsTree(ts: seq<Token>, i: nat)
    requires WellEnded(ts) && i < |ts| && Is(ts, i, Punc, Some("("))
    ensures Paren(ts, i).Done? ==> ExprTree(Paren(ts, i).value)
    decreases |ts| - i, 0
  {
    var e := Expr(ts, i + 1);
    if e.Done? && Is(ts, e.next, Punc, Some(")")) {
      var ex := Respan(e.value, ts[i], ts[e.next]);
      assert Paren(ts, i) == CloseParen(ts, ts[i], e.value, e.next) == PropAccess(ts, ex, e.next + 1);
      ExprIsTree(ts, i + 1);
      RespanKeepsTree(e.value, ts[i], ts[e.next]);
      PropAccessIsTree(ts, ex, e.next + 1);
    }
  }

  lemma {:induction false} PropAccessIsTree(ts: seq<Token>, container: Node, i: nat)
    requires WellEnded(ts) && i < |ts| && ExprTree(container)
    ensures PropAccess(ts, container, i).Done? ==> ExprTree(PropAccess(ts, container, i).value)
    decreases |ts| - i, 0
  {
    if Is(ts, i, Punc, Some(".")) && (container.Dot? || container.SymbolRef?) && ts[i + 1].kind == Identifier {
      var prop := ts[i + 1];
      PropAccessIsTree(ts, Dot(container.start, container, prop.value, prop), i + 2);
    }
  }

  lemma {:induction false} AnswerHasIsTree(ts: seq<Token>, i: nat)
    requires WellEnded(ts) && i < |ts|
    ensures AnswerHas(ts, i).Done? ==> ExprTree(AnswerHas(ts, i).value)
    decreases |ts| - i, 0
  {
    if AnswerHas(ts, i).Done? {
      assert AnswerHas(ts, i) == AnswerVerb(ts, ts[i], ts[i + 2], i + 3);
      ArgsAreTrees(ts, i + 4);
    }
  }

  lemma {:induction false} ArgsAreTrees(ts: seq<Token>, i: nat)
    requires WellEnded(ts) && i < |ts|
    ensures Args(ts, i).Done? ==> forall k :: 0 <= k < |Args(ts, i).value| ==> ExprTree(Args(ts, i).value[k])
    decreases |ts| - i, 0
  {
    if Is(ts, i, Punc, Some("(")) {
      ExprIsTree(ts, i + 1);
      var first := Expr(ts, i + 1);
      if first.Done? {
        ArgsRestAreTrees(ts, [first.value], first.next);
      }
    }
  }

  lemma {:induction false} ArgsRestAreTrees(ts: seq<Token>, acc: seq<Node>, i: nat)
    requires WellEnded(ts) && i < |ts|
    requires forall k :: 0 <= k < |acc| ==> ExprTree(acc[k])
    ensures ArgsRest(ts, acc, i).Done? ==> forall k :: 0 <= k < |ArgsRest(ts, acc, i).value| ==> ExprTree(ArgsRest(ts, acc, i).value[k])
    decreases |ts| - i, 0
  {
    if !Is(ts, i, Punc, Some(")")) && Is(ts, i, Punc, Some(",")) {
      ExprIsTree(ts, i + 1);
      var arg := Expr(ts, i + 1);
      if arg.Done? {
        ArgsRestAreTrees(ts, acc + [arg.value], arg.next);
      }
    }
  }

  lemma {:induction false} OpsIsTree(ts: seq<Token>, left: Node, minPrec: nat, i: nat)
    requires WellEnded(ts) && i < |ts| && ExprTree(left)
    ensures Ops(ts, left, minPrec, i).Done? ==> ExprTree(Ops(ts, left, minPrec, i).value)
    decreases |ts| - i, 0
  {
    var tok := ts[i];
    var prec := if tok.kind == Operator then Precedence(tok.value) else None;
    if prec.Some? && prec.value > minPrec {
      OperandIsTree(ts, prec.value, i + 1);
      var right := Operand(ts, prec.value, i + 1);
      if right.Done? {
        OpsIsTree(ts, Binary(left.start, left, tok.value, right.value, right.value.end), minPrec, right.next);
      }
    }
  }

  /**
   * "=" after an expression: the assignment is built exactly when the
   * left side is a bare symbol, and fails with "Invalid assignment" at the
   * "=" otherwise; the right side is read by `expr_ops`, so a second "="
   * is left unread.
   */
  lemma AssignOnlyToSymbols(ts: seq<Token>, i: nat)
    requires WellEnded(ts) && i < |ts|
    requires ExprOps(ts, i).Done? && Is(ts, ExprOps(ts, i).next, Operator, Some("="))
    ensures var j := ExprOps(ts, i).next;
            !IsAssignable(ExprOps(ts, i).value) ==> Expr(ts, i) == Stop(ErrorAt(BAD_ASSIGNMENT, ts[j]))
    ensures var j := ExprOps(ts, i).next;
            IsAssignable(ExprOps(ts, i).value) ==> (Expr(ts, i).Done? <==> ExprOps(ts, j + 1).Done?)
    ensures Expr(ts, i).Done? ==>
              var n := Expr(ts, i).value;
              n.Assign? && n.left == ExprOps(ts, i).value && IsAssignable(n.left) && OperatorOf(n) == "="
              && ExprOps(ts, ExprOps(ts, i).next + 1) == Done(n.right, Expr(ts, i).next)
  {
  }

  /** `x = y = z` reads `x = y` and stops at the second "=". */
  lemma NoChainedAssign(ts: seq<Token>, i: nat)
    requires WellEnded(ts) && i + 3 < |ts|
    requires ts[i].kind == Identifier && Is(ts, i + 1, Operator, Some("=")) && Leaf(ts[i + 2]) && Is(ts, i + 3, Operator, Some("="))
    ensures Expr(ts, i) == Done(Assign(ts[i], MkSymbolRef(ts[i]), LeafNode(ts[i + 2]), ts[i + 2]), i + 3)
  {
    AtomLeaf(ts, i);
    UnlistedOperatorsStop(ts, MkSymbolRef(ts[i]), 0, i + 1);
    assert ExprOps(ts, i) == Done(MkSymbolRef(ts[i]), i + 1);
    AtomLeaf(ts, i + 2);
    UnlistedOperatorsStop(ts, LeafNode(ts[i + 2]), 0, i + 3);
    assert ExprOps(ts, i + 2) == Done(LeafNode(ts[i + 2]), i + 3);
  }

  /** `.name` after `.name`: the names after the dots from `i`, `k` of them, and what follows them. */
  predicate Chain(ts: seq<Token>, i: nat, k: nat)
    requires i < |ts|
    decreases k
  {
    if k == 0 then true
    else Is(ts, i, Punc, Some(".")) && i + 2 < |ts| && ts[i + 1].kind == Identifier && Chain(ts, i + 2, k - 1)
  }

  function ChainNames(ts: seq<Token>, i: nat, k: nat): seq<Token>
    requires i < |ts| && Chain(ts, i, k)
    decreases k
  {
    if k == 0 then [] else [ts[i + 1]] + ChainNames(ts, i + 2, k - 1)
  }

  /** Property accesses nested to the left: `a` with names `b`, `c` is `(a.b).c`. */
  function Nest(container: Node, names: seq<Token>): Node
    decreases |names|
  {
    if names == [] then container
    else Nest(Dot(container.start, container, names[0].value, names[0]), names[1..])
  }

  /**
   * `k` accesses after a symbol nest to the left, each starting where the
   * symbol starts; reading goes on after the `k`-th name.
   */
  lemma {:induction false} AccessChain(ts: seq<Token>, container: Node, i: nat, k: nat)
    requires WellEnded(ts) && i < |ts| && Chain(ts, i, k)
    requires container.SymbolRef? || container.Dot?
    ensures var n := Nest(container, ChainNames(ts, i, k));
            i + 2 * k < |ts| && (n.SymbolRef? || n.Dot?) && n.start == container.start &&
            PropAccess(ts, container, i) == PropAccess(ts, n, i + 2 * k)
    decreases k
  {
    if k > 0 {
      var d := Dot(container.start, container, ts[i + 1].value, ts[i + 1]);
      assert PropAccess(ts, container, i) == PropAccess(ts, d, i + 2);
      var names := ChainNames(ts, i, k);
      assert names[0] == ts[i + 1] && names[1..] == ChainNames(ts, i + 2, k - 1);
      assert Nest(container, names) == Nest(d, names[1..]);
      AccessChain(ts, d, i + 2, k - 1);
    }
  }

  /** After a symbol or an access, "." followed by anything but a name fails with "invalid property name". */
  lemma InvalidPropertyName(ts: seq<Token>, container: Node, i: nat)
    requires WellEnded(ts) && i < |ts| && (container.SymbolRef? || container.Dot?)
    requires Is(ts, i, Punc, Some(".")) && ts[i + 1].kind != Identifier
    ensures PropAccess(ts, container, i) == Stop(ErrorAt(BAD_PROPERTY, ts[i + 1]))
  {
  }

  /** Without a "." the access chain ends where it is. */
  lemma AccessEnds(ts: seq<Token>, container: Node, i: nat)
    requires WellEnded(ts) && i < |ts| && !Is(ts, i, Punc, Some("."))
    ensures PropAccess(ts, container, i) == Done(container, i)
  {
  }

  /** `a.b.c` is `(a.b).c`. */
  lemma NestsLeft(a: Node, b: Token, c: Token)
    ensures Nest(a, [b, c]) == Dot(a.start, Dot(a.start, a, b.value, b), c.value, c)
  {
    var ab := Dot(a.start, a, b.value, b);
    assert [b, c][1..] == [c] && [c][1..] == [];
    assert Nest(a, [b, c]) == Nest(ab, [c]) == Nest(Dot(a.start, ab, c.value, c), []);
  }

  // ---------------------------------------------------------------------
  // Properties of the survey grammar

  /** An option is a column exactly when one of its attributes is named "col". */
  lemma {:induction false} IsColumnFindsCol(attrs: seq<Attr>)
    ensures IsColumn(attrs) <==> HasAttrNamed(attrs, "col")
    decreases |attrs|
  {
    if attrs != [] {
      IsColumnFindsCol(attrs[1..]);
      if HasAttrNamed(attrs, "col") && attrs[0].name != "col" {
        var k :| 0 <= k < |attrs| && attrs[k].name == "col";
        assert attrs[1..][k - 1].name == "col";
      }
    }
  }

  /**
   * The texts of a question or an option are the text tokens up to the
   * first token that ends them, each as a string node, after the ones
   * already read.
   */
  lemma {:induction false} TextsAreStrings(ts: seq<Token>, acc: seq<Node>, i: nat)
    requires WellEnded(ts) && i < |ts|
    ensures var r := Texts(ts, acc, i);
            r.Done? ==> EndsTexts(ts[r.next]) && |r.value| == |acc| + (r.next - i) && r.value[..|acc|] == acc
    ensures var r := Texts(ts, acc, i);
            r.Done? ==> forall k :: |acc| <= k < |r.value| ==> r.value[k] == MkString(ts[i + (k - |acc|)])
    decreases |ts| - i
  {
    if !EndsTexts(ts[i]) {
      var t := TextNode(ts, i);
      if t.Done? {
        TextsAreStrings(ts, acc + [t.value], t.next);
      }
    }
  }

  predicate Classified(o: Opt)
  {
    o.Column? <==> HasAttrNamed(o.attributes, "col")
  }

  /** An option is a column exactly when one of its attributes is named "col". */
  lemma OptionClassified(ts: seq<Token>, i: nat)
    requires WellEnded(ts) && i < |ts|
    ensures OptionAt(ts, i).Done? ==> Classified(OptionAt(ts, i).value)
  {
    var attrs := AttrBlock(ts, OAS, OAE, i);
    if attrs.Done? {
      IsColumnFindsCol(attrs.value);
    }
  }

  /** Every option `_options` reads is a column exactly when it has a "col" attribute. */
  lemma {:induction false} OptionsClassified(ts: seq<Token>, acc: seq<Opt>, i: nat)
    requires WellEnded(ts) && i < |ts|
    requires forall o :: o in acc ==> Classified(o)
    ensures Options(ts, acc, i).Done? ==> forall o :: o in Options(ts, acc, i).value ==> Classified(o)
    decreases |ts| - i
  {
    if !EndsOptions(ts[i]) {
      var o := OptionAt(ts, i);
      OptionClassified(ts, i);
      if o.Done? {
        OptionsClassified(ts, acc + [o.value], o.next);
      }
    }
  }

  /** The row filter distributes over concatenation, so it keeps the options' order. */
  lemma {:induction false} RowsKeepOrder(a: seq<Opt>, b: seq<Opt>)
    ensures RowsOf(a + b) == RowsOf(a) + RowsOf(b)
    decreases |a|
  {
    if a == [] {
      assert a + b == b;
    } else {
      var ab, head := a + b, if a[0].Row? then [a[0]] else [];
      assert RowsOf(ab) == head + RowsOf(a[1..] + b) by {
        assert ab[0] == a[0] && ab[1..] == a[1..] + b;
      }
      RowsKeepOrder(a[1..], b);
      assert head + (RowsOf(a[1..]) + RowsOf(b)) == (head + RowsOf(a[1..])) + RowsOf(b);
    }
  }

  /** The column filter distributes over concatenation, so it keeps the options' order. */
  lemma {:induction false} ColumnsKeepOrder(a: seq<Opt>, b: seq<Opt>)
    ensures ColumnsOf(a + b) == ColumnsOf(a) + ColumnsOf(b)
    decreases |a|
  {
    if a == [] {
      assert a + b == b;
    } else {
      var ab, head := a + b, if a[0].Column? then [a[0]] else [];
      assert ColumnsOf(ab) == head + ColumnsOf(a[1..] + b) by {
        assert ab[0] == a[0] && ab[1..] == a[1..] + b;
      }
      ColumnsKeepOrder(a[1..], b);
      assert head + (ColumnsOf(a[1..]) + ColumnsOf(b)) == (head + ColumnsOf(a[1..])) + ColumnsOf(b);
    }
  }

  /** Every option lands in exactly one of the two lists: rows are rows, columns are columns. */
  lemma {:induction false} FiltersPartition(opts: seq<Opt>)
    ensures multiset(RowsOf(opts)) + multiset(ColumnsOf(opts)) == multiset(opts)
    decreases |opts|
  {
    if opts != [] {
      var o, rest := opts[0], opts[1..];
      assert opts == [o] + rest;
      RowsKeepOrder([o], rest);
      ColumnsKeepOrder([o], rest);
      FiltersPartition(rest);
      OneOption(o);
    }
  }

  lemma OneOption(o: Opt)
    ensures multiset(RowsOf([o])) + multiset(ColumnsOf([o])) == multiset{o}
  {
    assert [o][1..] == [];
  }

  /** The rows are options that are rows, the columns options that are columns. */
  lemma {:induction false} FiltersSelect(opts: seq<Opt>)
    ensures forall o :: o in RowsOf(opts) ==> o in opts && o.Row?
    ensures forall o :: o in ColumnsOf(opts) ==> o in opts && o.Column?
    decreases |opts|
  {
    if opts != [] {
      FiltersSelect(opts[1..]);
    }
  }

  /**
   * An attribute block directly followed by "<<" or "<%" is a section
   * ending at its ">>"; otherwise it is a question.
   */
  lemma SectionOrQuestion(ts: seq<Token>, i: nat)
    requires WellEnded(ts) && i < |ts|
    requires QuestionOf(ts, i).Done?
    ensures var attrs := AttrBlock(ts, QAS, QAE, i);
            var c := QuestionOf(ts, i).value;
            attrs.Done? && c.attributes == attrs.value && c.start == ts[i] &&
            (c.Section? <==> ts[attrs.next].kind in {QAS, ALBS}) &&
            (c.Section? ==> c.end == ts[attrs.next - 1] && QuestionOf(ts, i).next == attrs.next)
  {
  }

  /** A question's rows are the options without a "col" attribute, its columns those with one. */
  lemma QuestionRowsAndColumns(ts: seq<Token>, i: nat)
    requires WellEnded(ts) && i < |ts|
    requires QuestionOf(ts, i).Done? && QuestionOf(ts, i).value.Question?
    ensures var c := QuestionOf(ts, i).value;
            (forall o :: o in c.rows ==> o.Row? && !HasAttrNamed(o.attributes, "col")) &&
            (forall o :: o in c.columns ==> o.Column? && HasAttrNamed(o.attributes, "col"))
  {
    var attrs := AttrBlock(ts, QAS, QAE, i);
    var texts := Texts(ts, [], attrs.next);
    OptionsClassified(ts, [], texts.next);
    FiltersSelect(Options(ts, [], texts.next).value);
  }

  /** Punctuation other than "(" right after "<%" is never read: `interlude` asks `statement` again for ever. */
  lemma InterludeSpins(ts: seq<Token>, i: nat)
    requires WellEnded(ts) && i + 1 < |ts|
    requires ts[i].kind == ALBS && ts[i + 1].kind == Punc && ts[i + 1].value != "("
    ensures InterludeOf(ts, i) == Stop(Diverges("interlude"))
  {
  }
}
