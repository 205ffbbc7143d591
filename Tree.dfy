/**
 * Tokens and the abstract syntax tree (Tree.ts, AST_Token.ts).
 *
 * The AST classes are plain data, so they become datatypes. Every node keeps
 * the tokens that start and end it. The survey side (components, options,
 * attributes) and the logic-language side (statements and expressions, `Node`)
 * are separate types, as they are separate class families in the source.
 */
module Tree {
  import opened Utils

  /**
   * `TokenType` (Tree.ts:6-14). The tokenizer writes string tags such as
   * "eof" or "q_attr_start" into a token (AST_Token.ts:7), while the parser
   * compares them with this numeric enum; the model gives every token one
   * kind that both sides share.
   */
  datatype TokenKind =
    | String | Identifier | Num | Punc | Operator | EOF
    | KW_AL | KW_Call_AL | KW_Val_AL
    | Text | KW_AT | QAS | QAE | OAS | OAE | EES | EEE | ALBS | ALBE

  /** `AST_Token`: kind, text, and the offset and line where the token starts. */
  datatype Token = Token(kind: TokenKind, value: string, pos: nat, line: nat)

  /** Statements and expressions of the logic language, and text fragments. */
  datatype Node =
    | SimpleStatement(start: Token, body: Node, end: Token)
    | BlockStatement(start: Token, stmts: seq<Node>, end: Token)
    | ConditionSetDef(start: Token, name: string, conditions: seq<Node>, end: Token)
    | ActionDef(start: Token, name: string, action: Node, end: Token)
    | RuleDef(start: Token, name: string, conditions: seq<Node>, action: Node, end: Token)
    | SymbolDec(start: Token, name: string, init: Option<Node>, end: Token)
    | BuiltInCmdCall(start: Token, name: string, args: seq<Node>, end: Token)
    | Evaluate(start: Token, target: Node, end: Token)
    | Do(start: Token, target: Node, end: Token)
    | HasAnswer(start: Token, question: Node, answers: seq<Node>, end: Token)
    | Binary(start: Token, left: Node, op: string, right: Node, end: Token)
    | Assign(start: Token, left: Node, right: Node, end: Token)
    | Dot(start: Token, container: Node, property: string, end: Token)
    | SymbolRef(start: Token, name: string, end: Token)
    | Str(start: Token, value: string, end: Token)
    | Number(start: Token, value: string, end: Token)
    | True(start: Token, end: Token)
    | False(start: Token, end: Token)
    | Undefined(start: Token, end: Token)

  /** `AST_Attribute`: `value` is None where the source stores null. */
  datatype Attr = Attr(start: Token, name: string, value: Option<Node>, isCustom: bool, end: Token)

  /** `AST_Row` and `AST_Column`, the two kinds of `AST_Option`. */
  datatype Opt =
    | Row(start: Token, texts: seq<Node>, attributes: seq<Attr>, end: Token)
    | Column(start: Token, texts: seq<Node>, attributes: seq<Attr>, end: Token)

  /** The survey components: `AST_Question`, `AST_Section`, `AST_Interlude`. */
  datatype Component =
    | Question(start: Token, texts: seq<Node>, attributes: seq<Attr>, rows: seq<Opt>, columns: seq<Opt>, end: Token)
    | Section(start: Token, attributes: seq<Attr>, end: Token)
    | Interlude(start: Token, body: seq<Node>, end: Token)

  /** The subclasses of `AST_Statement` that Tree.ts defines. */
  predicate IsStatement(n: Node)
  {
    n.SimpleStatement? || n.BlockStatement? || n.ConditionSetDef? || n.ActionDef? || n.RuleDef?
  }

  /** What the `AST_SimpleStatement` constructor throws with. */
  const NESTED_STATEMENT: string := "the body of a simple statement cannot be another statement"

  /**
   * The `AST_SimpleStatement` constructor (Tree.ts:238-246): it refuses a
   * body that is itself a statement, reporting at the start token.
   */
  function MkSimpleStatement(start: Token, body: Node, end: Token): (r: Result<Node>)
    ensures r.Ok? <==> !IsStatement(body)
    ensures r.Ok? ==> r.value.SimpleStatement? && r.value.body == body
                      && r.value.start == start && r.value.end == end
    ensures r.Err? ==> r.error == ParseError(NESTED_STATEMENT, start.line, start.pos)
  {
    if IsStatement(body) then
      Err(ParseError(NESTED_STATEMENT, start.line, start.pos))
    else
      Ok(SimpleStatement(start, body, end))
  }

  /** The operator a binary node carries. */
  function OperatorOf(n: Node): string
    requires n.Binary? || n.Assign?
  {
    if n.Assign? then "=" else n.op
  }

  /**
   * The `AST_Assign` constructor (Tree.ts:343-347): whatever operator it is
   * given, the node's operator is "=".
   */
  function MkAssign(start: Token, left: Node, operator: string, right: Node, end: Token): (r: Node)
    ensures (r.Binary? || r.Assign?) && OperatorOf(r) == "="
    ensures r.left == left && r.right == right && r.start == start && r.end == end
  {
    Assign(start, left, right, end)
  }

  /** `new AST_SymbolRef(tok)` (Tree.ts:365-369): the name is the token's text. */
  function MkSymbolRef(tok: Token): (r: Node)
    ensures r.SymbolRef? && r.name == tok.value && r.start == tok && r.end == tok
  {
    SymbolRef(tok, tok.value, tok)
  }

  /** `new AST_String(tok)` (Tree.ts:371-377). */
  function MkString(tok: Token): (r: Node)
    ensures r.Str? && r.value == tok.value && r.start == tok && r.end == tok
  {
    Str(tok, tok.value, tok)
  }

  /** `new AST_Num(tok)` (Tree.ts:379-385); the value stays the lexeme. */
  function MkNum(tok: Token): (r: Node)
    ensures r.Number? && r.value == tok.value && r.start == tok && r.end == tok
  {
    Number(tok, tok.value, tok)
  }

  /** Whether `attrs` holds an attribute with this name. */
  predicate HasAttrNamed(attrs: seq<Attr>, name: string)
  {
    exists k :: 0 <= k < |attrs| && attrs[k].name == name
  }
}
