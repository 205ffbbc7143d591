/**
 * The recursive-descent parser of Parser.ts as a class. The cursor state
 * `S` (the current, previous and peeked token) lives in fields, the token
 * source `S.input` is the token sequence the tokenizer yields, and each
 * production is a method that moves the cursor.
 *
 * Every production is proved to give exactly what the matching function
 * of `Grammar` gives from the position it starts at: the same node and
 * the cursor on the same token, or the same error.
 */
module Parsing {
  import opened Utils
  import opened Tree
  import Grammar

  class Parser {
    /** What `S.input` yields, in order; once at eof it keeps yielding the eof token. */
    const tokens: seq<Token>
    /** How many tokens `S.input` has yielded so far. */
    var pulled: nat
    /** `S.token`, `S.prev` and `S.peeked`. */
    var token: Token
    var prev: Option<Token>
    var peeked: Option<Token>

    /** The token `S.input` yields when asked for the k-th time, counting from 0. */
    function InputAt(k: nat): Token
      requires |tokens| >= 1
    {
      if k < |tokens| then tokens[k] else tokens[|tokens| - 1]
    }

    /** The position of the current token in `tokens`. */
    function Cur(): int
      reads this
    {
      pulled - 1
    }

    /**
     * The state between two productions: the current token is the last one
     * pulled, the previous one is the token before it, nothing is peeked.
     */
    predicate Ready()
      reads this
    {
      Grammar.WellEnded(tokens) && 1 <= pulled <= |tokens| && peeked.None?
      && token == tokens[pulled - 1] && (pulled >= 2 ==> prev == Some(tokens[pulled - 2]))
    }

    /**
     * A production returned `r` and left the cursor as the grammar's
     * outcome `s` says: the same value with the cursor on `s.next`, or the
     * same error.
     */
    predicate Gives<T(==)>(s: Grammar.Parsed<T>, r: Result<T>)
      reads this
    {
      (s.Done? ==> r == Ok(s.value) && Ready() && Cur() == s.next)
      && (s.Stop? ==> r == Err(s.error))
    }

    /** `S.token = next()` on the fresh state: the first token, no previous one. */
    constructor(input: seq<Token>)
      requires Grammar.WellEnded(input)
      ensures tokens == input && Ready() && Cur() == 0 && prev.None?
    {
      tokens := input;
      pulled := 1;
      token := input[0];
      prev := None;
      peeked := None;
    }

    /** `S.input()`: the next token of the stream. */
    method Input() returns (t: Token)
      requires |tokens| >= 1
      modifies this
      ensures t == InputAt(old(pulled)) && pulled == old(pulled) + 1
      ensures token == old(token) && prev == old(prev) && peeked == old(peeked)
    {
      t := InputAt(pulled);
      pulled := pulled + 1;
    }

    /** `peek()`: the token after the current one, pulled once and kept. */
    method Peek() returns (t: Token)
      requires |tokens| >= 1
      modifies this
      ensures old(peeked).Some? ==> t == old(peeked).value && pulled == old(pulled)
      ensures old(peeked).None? ==> t == InputAt(old(pulled)) && pulled == old(pulled) + 1
      ensures peeked == Some(t) && token == old(token) && prev == old(prev)
    {
      if peeked.Some? {
        t := peeked.value;
      } else {
        t := Input();
        peeked := Some(t);
      }
    }

    /** `next()`: the current token becomes the previous one; the peeked token or a new one becomes current. */
    method Next() returns (t: Token)
      requires |tokens| >= 1
      modifies this
      ensures prev == Some(old(token)) && t == token && peeked.None?
      ensures old(peeked).Some? ==> token == old(peeked).value && pulled == old(pulled)
      ensures old(peeked).None? ==> token == InputAt(old(pulled)) && pulled == old(pulled) + 1
      ensures old(Ready()) && old(pulled) < |tokens| ==> Ready() && Cur() == old(Cur()) + 1
    {
      prev := Some(token);
      if peeked.Some? {
        token := peeked.value;
        peeked := None;
      } else {
        token := Input();
      }
      t := token;
    }

    /** `prev()`. */
    function Prev(): Token
      reads this
      requires prev.Some?
    {
      prev.value
    }

    /** `is(type, val)`. */
    predicate IsAt(kind: TokenKind, val: Option<string>)
      reads this
    {
      token.kind == kind && (val.None? || token.value == val.value)
    }

    /** `isOfAnyType(types)`. */
    predicate IsOfAnyType(kinds: set<TokenKind>)
      reads this
    {
      token.kind in kinds
    }

    /** `parse_error(message)`: the error at the current token. */
    function ErrorHere(message: string): Failure
      reads this
    {
      Grammar.ErrorAt(message, token)
    }

    /** `check_token(type, val)`: the current token when it is as asked, else the error describing what was expected. */
    method CheckToken(kind: TokenKind, val: Option<string>) returns (r: Result<Token>)
      requires Ready()
      ensures r.Ok? <==> Grammar.Is(tokens, Cur(), kind, val)
      ensures r.Ok? ==> r.value == tokens[Cur()]
      ensures r.Err? ==> r.error == Grammar.CheckFailure(tokens[Cur()], kind, val)
    {
      if IsAt(kind, val) {
        return Ok(token);
      }
      r := Err(Grammar.CheckFailure(token, kind, val));
    }

    /** `match_token(type, val)`: `check_token`, then one step on. */
    method MatchToken(kind: TokenKind, val: Option<string>) returns (r: Result<Token>)
      requires Ready() && kind != EOF
      modifies this
      ensures Gives(Grammar.MatchToken(tokens, old(Cur()), kind, val), r)
    {
      r := CheckToken(kind, val);
      if r.Err? {
        return;
      }
      var _ := Next();
    }

    // -------------------------------------------------------------------
    // Expressions

    /** `symbol_ref()`: the current token as a symbol, and one step on. */
    method SymbolRefNode() returns (n: Node)
      requires Ready() && token.kind != EOF
      modifies this
      ensures n == MkSymbolRef(old(token)) && Ready() && Cur() == old(Cur()) + 1
    {
      n := MkSymbolRef(token);
      var _ := Next();
    }

    /** `maybe_propAccess(container)`. */
    method PropAccess(container: Node) returns (r: Result<Node>)
      requires Ready()
      modifies this
      ensures Gives(Grammar.PropAccess(tokens, container, old(Cur())), r)
      decreases |tokens| - Cur(), 0
    {
      if IsAt(Punc, Some(".")) && (container.Dot? || container.SymbolRef?) {
        var prop := Next();
        if IsAt(Identifier, None) {
          var _ := Next();
          r := PropAccess(Dot(container.start, container, prop.value, prop));
        } else {
          r := Err(ErrorHere(Grammar.BAD_PROPERTY));
        }
      } else {
        r := Ok(container);
      }
    }

    /** `expr_atom()`. */
    method Atom() returns (r: Result<Node>)
      requires Ready()
      modifies this
      ensures Gives(Grammar.Atom(tokens, old(Cur())), r)
      decreases |tokens| - Cur(), 1
    {
      var tok := token;
      match tok.kind {
        case Punc =>
          if IsAt(Punc, Some("(")) {
            r := Paren();
          } else {
            r := Err(Grammar.Unexpected(tok));
          }
        case Identifier =>
          r := Name();
        case KW_AL =>
          if tok.value == "answer" {
            r := AnswerHas();
          } else {
            r := Err(Grammar.Unexpected(tok));
          }
        case _ =>
          r := Literal();
      }
    }

    /** The identifier case of `expr_atom`: `maybe_propAccess(symbol_ref())`. */
    method Name() returns (r: Result<Node>)
      requires Ready() && token.kind == Identifier
      modifies this
      ensures Gives(Grammar.PropAccess(tokens, MkSymbolRef(old(token)), old(Cur()) + 1), r)
    {
      var s := SymbolRefNode();
      r := PropAccess(s);
    }

    /** The literal cases of `expr_atom`: `_num`, `_string`, `_false`, `_true`, `_undefined`. */
    method Literal() returns (r: Result<Node>)
      requires Ready()
      modifies this
      ensures Gives(Grammar.Literal(tokens, old(Cur())), r)
    {
      var tok := token;
      match tok.kind {
        case Num =>
          r := Ok(MkNum(tok));
          var _ := Next();
        case String =>
          r := Ok(MkString(tok));
          var _ := Next();
        case KW_Val_AL =>
          if tok.value == "false" {
            r := Ok(False(tok, tok));
            var _ := Next();
          } else if tok.value == "true" {
            r := Ok(True(tok, tok));
            var _ := Next();
          } else if tok.value == "undefined" {
            r := Ok(Undefined(tok, tok));
            var _ := Next();
          } else {
            r := Err(Grammar.Unexpected(tok));
          }
        case _ =>
          r := Err(Grammar.Unexpected(tok));
      }
    }

    /**
     * The "(" case of `expr_atom`: the expression is widened to start at
     * "(" and end at the token after it, and property accesses may follow.
     */
    method Paren() returns (r: Result<Node>)
      requires Ready() && IsAt(Punc, Some("("))
      modifies this
      ensures Gives(Grammar.Paren(tokens, old(Cur())), r)
      decreases |tokens| - Cur(), 0
    {
      var start := token;
      var _ := Next();
      var ex :- Expression();
      r := CloseParen(start, ex);
    }

    /** The rest of the "(" case: ")" and the property accesses after it, around `ex` opened by `open`. */
    method CloseParen(open: Token, ex: Node) returns (r: Result<Node>)
      requires Ready()
      modifies this
      ensures Gives(Grammar.CloseParen(tokens, open, ex, old(Cur())), r)
    {
      var spanned := Grammar.Respan(ex, open, token);
      var _ :- MatchToken(Punc, Some(")"));
      r := PropAccess(spanned);
    }

    /** `_answer_has()`. */
    method AnswerHas() returns (r: Result<Node>)
      requires Ready()
      modifies this
      ensures Gives(Grammar.AnswerHas(tokens, old(Cur())), r)
      decreases |tokens| - Cur(), 0
    {
      var start := token;
      var _ :- MatchToken(KW_AL, Some("answer"));
      var _ :- MatchToken(KW_AL, Some("for"));
      var q :- MatchToken(Identifier, None);
      r := AnswerVerb(start, q);
    }

    /** The `switch` of `_answer_has` on the token after the question `q`. */
    method AnswerVerb(start: Token, q: Token) returns (r: Result<Node>)
      requires Ready()
      modifies this
      ensures Gives(Grammar.AnswerVerb(tokens, start, q, old(Cur())), r)
      decreases |tokens| - Cur(), 0
    {
      var question := MkSymbolRef(q);
      if token.value in {"has", "has_not", "only_has"} {
        var _ := Next();
        var args :- ArgsList();
        r := Ok(HasAnswer(start, question, args, Prev()));
      } else {
        r := Err(Grammar.Unexpected(token));
      }
    }

    /** `_args_list()`. */
    method ArgsList() returns (r: Result<seq<Node>>)
      requires Ready()
      modifies this
      ensures Gives(Grammar.Args(tokens, old(Cur())), r)
      decreases |tokens| - Cur(), 0
    {
      var _ :- MatchToken(Punc, Some("("));
      var first :- Expression();
      r := MoreArgs([first]);
    }

    /** The loop of `_args_list`, after the arguments `acc`. */
    method MoreArgs(acc: seq<Node>) returns (r: Result<seq<Node>>)
      requires Ready()
      modifies this
      ensures Gives(Grammar.ArgsRest(tokens, acc, old(Cur())), r)
      decreases |tokens| - Cur(), 1
    {
      var args := acc;
      ghost var goal := Grammar.ArgsRest(tokens, acc, Cur());
      while !IsAt(Punc, Some(")"))
        invariant Ready() && old(Cur()) <= Cur()
        invariant goal == Grammar.ArgsRest(tokens, args, Cur())
        decreases |tokens| - Cur()
      {
        var arg :- CommaArg();
        args := args + [arg];
      }
      // the closing ")" is where the loop stopped
      var _ := Next();
      r := Ok(args);
    }

    /** One turn of the loop of `_args_list`: "," and an expression. */
    method CommaArg() returns (r: Result<Node>)
      requires Ready()
      modifies this
      ensures Gives(Grammar.CommaArg(tokens, old(Cur())), r)
      decreases |tokens| - Cur(), 0
    {
      var _ :- MatchToken(Punc, Some(","));
      r := Expression();
    }

    /** `expr_op(left, min_prec)`. */
    method ExprOp(left: Node, minPrec: nat) returns (r: Result<Node>)
      requires Ready()
      modifies this
      ensures Gives(Grammar.Ops(tokens, left, minPrec, old(Cur())), r)
      decreases |tokens| - Cur(), 0
    {
      var op := token.value;
      var prec := if IsAt(Operator, None) then Grammar.Precedence(op) else None;
      if prec.Some? && prec.value > minPrec {
        var _ := Next();
        var right :- Operand(prec.value);
        r := ExprOp(Binary(left.start, left, op, right, right.end), minPrec);
      } else {
        r := Ok(left);
      }
    }

    /** `expr_op(expr_atom(), prec)`. */
    method Operand(prec: nat) returns (r: Result<Node>)
      requires Ready()
      modifies this
      ensures Gives(Grammar.Operand(tokens, prec, old(Cur())), r)
      decreases |tokens| - Cur(), 2
    {
      var a :- Atom();
      r := ExprOp(a, prec);
    }

    /** `expr_ops()`. */
    method ExprOps() returns (r: Result<Node>)
      requires Ready()
      modifies this
      ensures Gives(Grammar.ExprOps(tokens, old(Cur())), r)
      decreases |tokens| - Cur(), 3
    {
      r := Operand(0);
    }

    /** `expression()`, that is `maybe_assign()`. */
    method Expression() returns (r: Result<Node>)
      requires Ready()
      modifies this
      ensures Gives(Grammar.Expr(tokens, old(Cur())), r)
      decreases |tokens| - Cur(), 4
    {
      var start := token;
      var left :- ExprOps();
      if IsAt(Operator, Some("=")) {
        if Grammar.IsAssignable(left) {
          var _ := Next();
          var right :- ExprOps();
          r := Ok(MkAssign(start, left, "=", right, Prev()));
        } else {
          r := Err(ErrorHere(Grammar.BAD_ASSIGNMENT));
        }
      } else {
        r := Ok(left);
      }
    }

    // -------------------------------------------------------------------
    // Statements

    /** `simple_statement()`: an expression from the current token to the one before the cursor. */
    method Simple() returns (r: Result<Node>)
      requires Ready()
      modifies this
      ensures Gives(Grammar.Simple(tokens, old(Cur())), r)
    {
      var start := token;
      var e :- Expression();
      r := MkSimpleStatement(start, e, Prev());
    }

    /** `_condition()`. */
    method Condition() returns (r: Result<Node>)
      requires Ready()
      modifies this
      ensures Gives(Grammar.Condition(tokens, old(Cur())), r)
    {
      var _ :- MatchToken(Punc, Some("|"));
      r := Simple();
    }

    /** `block_statement()`. */
    method Block() returns (r: Result<Node>)
      requires Ready()
      modifies this
      ensures Gives(Grammar.Block(tokens, old(Cur())), r)
    {
      var start := token;
      var _ :- MatchToken(Punc, Some("{"));
      r := BlockRest(start, []);
    }

    /** The loop of `block_statement`, after the statements `acc`, and the closing "}". */
    method BlockRest(start: Token, acc: seq<Node>) returns (r: Result<Node>)
      requires Ready()
      modifies this
      ensures Gives(Grammar.BlockRest(tokens, start, acc, old(Cur())), r)
    {
      var stmts := acc;
      while !IsAt(Punc, Some("}"))
        invariant Ready() && old(Cur()) <= Cur()
        invariant Grammar.BlockRest(tokens, start, acc, old(Cur())) == Grammar.BlockRest(tokens, start, stmts, Cur())
        decreases |tokens| - Cur()
      {
        var s :- Simple();
        stmts := stmts + [s];
      }
      r := CloseBlock(start, stmts);
    }

    /** The "}" that ends `block_statement`. */
    method CloseBlock(start: Token, stmts: seq<Node>) returns (r: Result<Node>)
      requires Ready() && IsAt(Punc, Some("}"))
      modifies this
      ensures Gives(Grammar.BlockRest(tokens, start, stmts, old(Cur())), r)
    {
      // `match_token(Punc, "}")` on the "}" just seen
      var _ := Next();
      r := Ok(BlockStatement(start, stmts, Prev()));
    }

    /** `_rule()`. */
    method Rule() returns (r: Result<Node>)
      requires Ready()
      modifies this
      ensures Gives(Grammar.Rule(tokens, old(Cur())), r)
    {
      var start := token;
      var _ :- MatchToken(KW_AL, Some("rule"));
      var name :- MatchToken(Identifier, None);
      r := RuleConditions(start, name.value);
    }

    /** The ":" and the first condition of `_rule`, then the rest. */
    method RuleConditions(start: Token, name: string) returns (r: Result<Node>)
      requires Ready()
      modifies this
      ensures Gives(Grammar.RuleConditions(tokens, start, name, old(Cur())), r)
    {
      var _ :- MatchToken(Punc, Some(":"));
      var first :- Condition();
      r := RuleRest(start, name, [first]);
    }

    /** The loop of `_rule` up to "{", and the action block. */
    method RuleRest(start: Token, name: string, acc: seq<Node>) returns (r: Result<Node>)
      requires Ready()
      modifies this
      ensures Gives(Grammar.RuleRest(tokens, start, name, acc, old(Cur())), r)
    {
      var conds := acc;
      ghost var goal := Grammar.RuleRest(tokens, start, name, acc, Cur());
      while !IsAt(Punc, Some("{"))
        invariant Ready() && old(Cur()) <= Cur()
        invariant goal == Grammar.RuleRest(tokens, start, name, conds, Cur())
        decreases |tokens| - Cur()
      {
        var c :- Condition();
        conds := conds + [c];
      }
      r := RuleAction(start, name, conds);
    }

    /** The action block that ends `_rule`, at its "{". */
    method RuleAction(start: Token, name: string, conds: seq<Node>) returns (r: Result<Node>)
      requires Ready() && IsAt(Punc, Some("{"))
      modifies this
      ensures Gives(Grammar.RuleRest(tokens, start, name, conds, old(Cur())), r)
    {
      var action :- Block();
      r := Ok(RuleDef(start, name, conds, action, Prev()));
    }

    /** `_action()`. */
    method Action() returns (r: Result<Node>)
      requires Ready()
      modifies this
      ensures Gives(Grammar.Action(tokens, old(Cur())), r)
    {
      var start := token;
      var _ :- MatchToken(KW_AL, Some("action"));
      var name :- MatchToken(Identifier, None);
      var action :- Block();
      r := Ok(ActionDef(start, name.value, action, Prev()));
    }

    /** `_condition_set()`. */
    method ConditionSet() returns (r: Result<Node>)
      requires Ready()
      modifies this
      ensures Gives(Grammar.ConditionSet(tokens, old(Cur())), r)
    {
      var start := token;
      var _ :- MatchToken(KW_AL, Some("conditions"));
      var name :- MatchToken(Identifier, None);
      r := ConditionSetConditions(start, name.value);
    }

    /** The ":" and the first condition of `_condition_set`, then the rest. */
    method ConditionSetConditions(start: Token, name: string) returns (r: Result<Node>)
      requires Ready()
      modifies this
      ensures Gives(Grammar.ConditionSetConditions(tokens, start, name, old(Cur())), r)
    {
      var _ :- MatchToken(Punc, Some(":"));
      var first :- Condition();
      r := ConditionSetRest(start, name, [first]);
    }

    /** The loop of `_condition_set`, up to the "end" it leaves unread. */
    method ConditionSetRest(start: Token, name: string, acc: seq<Node>) returns (r: Result<Node>)
      requires Ready() && 0 < Cur()
      modifies this
      ensures Gives(Grammar.ConditionSetRest(tokens, start, name, acc, old(Cur())), r)
    {
      var conds := acc;
      ghost var goal := Grammar.ConditionSetRest(tokens, start, name, acc, Cur());
      while !IsAt(Punc, Some("end"))
        invariant Ready() && old(Cur()) <= Cur()
        invariant goal == Grammar.ConditionSetRest(tokens, start, name, conds, Cur())
        decreases |tokens| - Cur()
      {
        var c :- Condition();
        conds := conds + [c];
      }
      r := EndConditionSet(start, name, conds);
    }

    /** The "end" that `_condition_set` stops at and leaves unread. */
    method EndConditionSet(start: Token, name: string, conds: seq<Node>) returns (r: Result<Node>)
      requires Ready() && 0 < Cur() && IsAt(Punc, Some("end"))
      ensures Gives(Grammar.ConditionSetRest(tokens, start, name, conds, Cur()), r)
    {
      r := Ok(ConditionSetDef(start, name, conds, Prev()));
    }

    /** `_def()`. */
    method Def() returns (r: Result<Node>)
      requires Ready()
      modifies this
      ensures Gives(Grammar.Def(tokens, old(Cur())), r)
    {
      var start := token;
      var _ :- MatchToken(KW_AL, Some("def"));
      var name :- MatchToken(Identifier, None);
      if IsAt(Operator, Some("=")) {
        // `match_token(Operator, "=")` on the "=" just seen
        var _ := Next();
        var init :- ExprOps();
        r := Ok(SymbolDec(start, name.value, Some(init), Prev()));
      } else {
        r := Ok(SymbolDec(start, name.value, None, Prev()));
      }
    }

    /** `build_in_func_cmd()`. */
    method Command() returns (r: Result<Node>)
      requires Ready()
      modifies this
      ensures Gives(Grammar.Command(tokens, old(Cur())), r)
    {
      var start := token;
      var cmd :- MatchToken(KW_Call_AL, None);
      var args :- ArgsList();
      r := Ok(BuiltInCmdCall(start, cmd.value, args, Prev()));
    }

    /** `_evaluate()` when `word` is "evaluate", `_do()` when it is "do". */
    method Target(word: string) returns (r: Result<Node>)
      requires Ready()
      modifies this
      ensures Gives(Grammar.Target(tokens, old(Cur()), word), r)
    {
      var start := token;
      var _ :- MatchToken(KW_Call_AL, Some(word));
      var _ :- CheckToken(Identifier, None);
      var target := SymbolRefNode();
      r := Ok(if word == "evaluate" then Evaluate(start, target, Prev()) else Do(start, target, Prev()));
    }

    /**
     * `statement()`: None when it falls out of its switch without reading
     * anything.
     */
    method Statement() returns (r: Result<Option<Node>>)
      requires Ready()
      modifies this
      ensures Gives(Grammar.Statement(tokens, old(Cur())), r)
    {
      var tok := token;
      var s: Result<Node>;
      if tok.kind in {String, Num, KW_Val_AL, Identifier} || IsAt(Punc, Some("(")) {
        s := Simple();
      } else if tok.kind == Punc {
        return Ok(None);
      } else if tok.kind == KW_Call_AL {
        r := Call();
        return;
      } else if tok.kind == KW_AL {
        s := Keyword();
      } else {
        return Err(Grammar.Unexpected(tok));
      }
      r := match s case Ok(n) => Ok(Some(n)) case Err(e) => Err(e);
    }

    /** The cases of `statement()` for the call keywords. */
    method Call() returns (r: Result<Option<Node>>)
      requires Ready() && token.kind == KW_Call_AL
      modifies this
      ensures Gives(Grammar.Statement(tokens, old(Cur())), r)
    {
      var tok := token;
      var s: Result<Node>;
      if tok.value == "evaluate" || tok.value == "do" {
        s := Target(tok.value);
      } else if tok.value in {"go_to", "hide", "terminate", "show_error"} {
        s := Command();
      } else {
        return Ok(None);
      }
      r := match s case Ok(n) => Ok(Some(n)) case Err(e) => Err(e);
    }

    /** The cases of `statement()` for the survey keywords. */
    method Keyword() returns (r: Result<Node>)
      requires Ready()
      modifies this
      ensures Gives(Grammar.KeywordStatement(tokens, old(Cur())), r)
    {
      if token.value == "rule" {
        r := Rule();
      } else if token.value == "action" {
        r := Action();
      } else {
        r := OtherKeyword();
      }
    }

    /** The cases of `statement()` for the keywords after "rule" and "action". */
    method OtherKeyword() returns (r: Result<Node>)
      requires Ready() && token.value != "rule" && token.value != "action"
      modifies this
      ensures Gives(Grammar.KeywordStatement(tokens, old(Cur())), r)
    {
      var tok := token;
      if tok.value == "conditions" {
        r := ConditionSet();
      } else if tok.value == "def" {
        r := Def();
      } else if tok.value == "answer" {
        r := Simple();
      } else {
        r := Err(Grammar.Unexpected(tok));
      }
    }

    /** `interlude()`. */
    method InterludeOf() returns (r: Result<Component>)
      requires Ready()
      modifies this
      ensures Gives(Grammar.InterludeOf(tokens, old(Cur())), r)
    {
      var start := token;
      var _ :- MatchToken(ALBS, None);
      r := InterludeRest(start, []);
    }

    /**
     * The loop of `interlude`, after the statements `acc`, and the closing
     * "%>". A statement that reads nothing would be asked for again at the
     * same token for ever; the loop stops there with `Diverges`.
     */
    method InterludeRest(start: Token, acc: seq<Node>) returns (r: Result<Component>)
      requires Ready()
      modifies this
      ensures Gives(Grammar.InterludeRest(tokens, start, acc, old(Cur())), r)
    {
      var stmts := acc;
      while !IsAt(ALBE, None)
        invariant Ready() && old(Cur()) <= Cur()
        invariant Grammar.InterludeRest(tokens, start, acc, old(Cur())) == Grammar.InterludeRest(tokens, start, stmts, Cur())
        decreases |tokens| - Cur()
      {
        var s :- Statement();
        if s.None? {
          return Err(Diverges("interlude"));
        }
        stmts := stmts + [s.value];
      }
      r := CloseInterlude(start, stmts);
    }

    /** The "%>" that ends `interlude`. */
    method CloseInterlude(start: Token, stmts: seq<Node>) returns (r: Result<Component>)
      requires Ready() && IsAt(ALBE, None)
      modifies this
      ensures Gives(Grammar.InterludeRest(tokens, start, stmts, old(Cur())), r)
    {
      // `match_token(ALBE)` on the "%>" just seen
      var _ := Next();
      r := Ok(Interlude(start, stmts, Prev()));
    }

    // -------------------------------------------------------------------
    // Questions, sections and options

    /** `attribute()`. */
    method Attribute() returns (r: Result<Attr>)
      requires Ready()
      modifies this
      ensures Gives(Grammar.Attribute(tokens, old(Cur())), r)
    {
      var left := token;
      if IsAt(KW_AT, None) {
        // `match_token(KW_AT)` on the keyword just seen
        var _ := Next();
        if IsAt(Operator, Some("=")) {
          var _ := Next();
          r := AttributeValue(left);
        } else {
          r := Ok(Attr(left, left.value, None, false, left));
        }
      } else if IsAt(Identifier, None) {
        var _ := Next();
        r := Ok(Attr(left, left.value, None, true, left));
      } else {
        r := Err(ErrorHere(Grammar.BAD_ATTRIBUTE_NAME + token.value));
      }
    }

    /** The value after `name =` in `attribute()`. */
    method AttributeValue(name: Token) returns (r: Result<Attr>)
      requires Ready()
      modifies this
      ensures Gives(Grammar.AttributeValue(tokens, name, old(Cur())), r)
    {
      if IsAt(String, None) {
        // `expr_atom()` on a string token is `_string()`
        var v := MkString(token);
        var _ := Next();
        r := Ok(Attr(name, name.value, Some(v), false, v.end));
      } else if IsAt(EES, None) {
        r := Err(Fault(Grammar.NOT_IMPLEMENTED));
      } else {
        r := Err(ErrorHere(Grammar.BAD_ATTRIBUTE_VALUE + token.value));
      }
    }

    /** `questionAttrib()`: "<<", attributes, ">>". */
    method QuestionAttrib() returns (r: Result<seq<Attr>>)
      requires Ready()
      modifies this
      ensures Gives(Grammar.AttrBlock(tokens, QAS, QAE, old(Cur())), r)
    {
      var _ :- MatchToken(QAS, None);
      r := AttrsRest(QAE, []);
    }

    /** `optionAttrib()`: "[", attributes, "]". */
    method OptionAttrib() returns (r: Result<seq<Attr>>)
      requires Ready()
      modifies this
      ensures Gives(Grammar.AttrBlock(tokens, OAS, OAE, old(Cur())), r)
    {
      var _ :- MatchToken(OAS, None);
      r := AttrsRest(OAE, []);
    }

    /** The loop of `questionAttrib` and `optionAttrib`, after the attributes `acc`, and the closer. */
    method AttrsRest(closer: TokenKind, acc: seq<Attr>) returns (r: Result<seq<Attr>>)
      requires Ready() && closer != EOF
      modifies this
      ensures Gives(Grammar.AttrsRest(tokens, closer, acc, old(Cur())), r)
    {
      var attrs := acc;
      while !IsAt(closer, None)
        invariant Ready() && old(Cur()) <= Cur()
        invariant Grammar.AttrsRest(tokens, closer, acc, old(Cur())) == Grammar.AttrsRest(tokens, closer, attrs, Cur())
        decreases |tokens| - Cur()
      {
        var a :- Attribute();
        attrs := attrs + [a];
      }
      r := CloseAttrs(closer, attrs);
    }

    /** The ">>" or "]" that ends an attribute block. */
    method CloseAttrs(closer: TokenKind, attrs: seq<Attr>) returns (r: Result<seq<Attr>>)
      requires Ready() && closer != EOF && IsAt(closer, None)
      modifies this
      ensures Gives(Grammar.AttrsRest(tokens, closer, attrs, old(Cur())), r)
    {
      // `match_token(closer)` on the closer just seen
      var _ := Next();
      r := Ok(attrs);
    }

    /** `text()`. */
    method TextNode() returns (r: Result<Node>)
      requires Ready()
      modifies this
      ensures Gives(Grammar.TextNode(tokens, old(Cur())), r)
    {
      if IsAt(Text, None) {
        // `match_token(Text)` on the text just seen
        var t := token;
        var _ := Next();
        r := Ok(MkString(t));
      } else if IsAt(EES, None) {
        r := Err(Fault(Grammar.NOT_IMPLEMENTED));
      } else {
        r := Err(ErrorHere(Grammar.BAD_TEXT));
      }
    }

    /** `_questionTexts()` and `optionText()`. */
    method Texts() returns (r: Result<seq<Node>>)
      requires Ready()
      modifies this
      ensures Gives(Grammar.Texts(tokens, [], old(Cur())), r)
    {
      var texts: seq<Node> := [];
      while !IsOfAnyType({EOF, OAS, ALBS, QAS})
        invariant Ready() && old(Cur()) <= Cur()
        invariant Grammar.Texts(tokens, [], old(Cur())) == Grammar.Texts(tokens, texts, Cur())
        decreases |tokens| - Cur()
      {
        var t :- TextNode();
        texts := texts + [t];
      }
      r := Ok(texts);
    }

    /** One turn of the loop of `_options`: an attribute block and texts, as a row or a column. */
    method OptionAt() returns (r: Result<Opt>)
      requires Ready()
      modifies this
      ensures Gives(Grammar.OptionAt(tokens, old(Cur())), r)
    {
      var start := token;
      var attrs :- OptionAttrib();
      r := OptionBody(start, attrs);
    }

    /** The texts of an option after its attribute block `attrs`, and whether it is a column. */
    method OptionBody(start: Token, attrs: seq<Attr>) returns (r: Result<Opt>)
      requires Ready() && 0 < Cur()
      modifies this
      ensures Gives(Grammar.OptionBody(tokens, start, attrs, old(Cur())), r)
    {
      var texts :- Texts();
      var end := Prev();
      var isCol := false;
      for k := 0 to |attrs|
        invariant !isCol && forall m :: 0 <= m < k ==> attrs[m].name != "col"
      {
        if attrs[k].name == "col" {
          isCol := true;
          break;
        }
      }
      Grammar.IsColumnFindsCol(attrs);
      r := Ok(if isCol then Column(start, texts, attrs, end) else Row(start, texts, attrs, end));
    }

    /** `_options()`. */
    method Options() returns (r: Result<seq<Opt>>)
      requires Ready()
      modifies this
      ensures Gives(Grammar.Options(tokens, [], old(Cur())), r)
    {
      var opts: seq<Opt> := [];
      ghost var goal := Grammar.Options(tokens, [], Cur());
      while !IsOfAnyType({EOF, QAS, ALBS})
        invariant Ready() && old(Cur()) <= Cur()
        invariant goal == Grammar.Options(tokens, opts, Cur())
        decreases |tokens| - Cur()
      {
        var o :- OptionAt();
        opts := opts + [o];
      }
      r := EndOptions(opts);
    }

    /** Eof, "<<" or "<%" ends the options of a question. */
    method EndOptions(opts: seq<Opt>) returns (r: Result<seq<Opt>>)
      requires Ready() && IsOfAnyType({EOF, QAS, ALBS})
      ensures Gives(Grammar.Options(tokens, opts, Cur()), r)
    {
      r := Ok(opts);
    }

    /** `question()`: a question, or a section when another component follows the attributes at once. */
    method QuestionOf() returns (r: Result<Component>)
      requires Ready()
      modifies this
      ensures Gives(Grammar.QuestionOf(tokens, old(Cur())), r)
    {
      var start := token;
      var attrs :- QuestionAttrib();
      r := QuestionBody(start, attrs);
    }

    /** The rest of `question()`, after the attribute block `attrs`. */
    method QuestionBody(start: Token, attrs: seq<Attr>) returns (r: Result<Component>)
      requires Ready() && 0 < Cur()
      modifies this
      ensures Gives(Grammar.QuestionBody(tokens, start, attrs, old(Cur())), r)
    {
      if !IsAt(QAS, None) && !IsAt(ALBS, None) {
        var texts :- Texts();
        var opts :- Options();
        r := Ok(Question(start, texts, attrs, Grammar.RowsOf(opts), Grammar.ColumnsOf(opts), Prev()));
      } else {
        r := Ok(Section(start, attrs, Prev()));
      }
    }

    /** `parse()`: the components up to eof; any other token between them is never left. */
    method Parse() returns (r: Result<seq<Component>>)
      requires Ready()
      modifies this
      ensures Gives(Grammar.ParseRest(tokens, [], old(Cur())), r)
    {
      var root: seq<Component> := [];
      ghost var goal := Grammar.ParseRest(tokens, [], Cur());
      while token.kind != EOF
        invariant Ready() && old(Cur()) <= Cur()
        invariant goal == Grammar.ParseRest(tokens, root, Cur())
        decreases |tokens| - Cur()
      {
        var c :- ComponentAt();
        root := root + [c];
      }
      r := EndOfInput(root);
    }

    /** Eof ends `parse()` with the components read. */
    method EndOfInput(root: seq<Component>) returns (r: Result<seq<Component>>)
      requires Ready() && token.kind == EOF
      ensures Gives(Grammar.ParseRest(tokens, root, Cur()), r)
    {
      r := Ok(root);
    }

    /** The `switch` in the loop of `parse()`. */
    method ComponentAt() returns (r: Result<Component>)
      requires Ready()
      modifies this
      ensures Gives(Grammar.ComponentAt(tokens, old(Cur())), r)
    {
      if token.kind == QAS {
        r := QuestionOf();
      } else if token.kind == ALBS {
        r := InterludeOf();
      } else {
        r := Err(Diverges("parse"));
      }
    }
  }

  /** `Parser(input)`: the survey the tokens make, or the error the parser throws. */
  method ParseSurvey(input: seq<Token>) returns (r: Result<seq<Component>>)
    requires Grammar.WellEnded(input)
    ensures Grammar.Parse(input).Done? ==> r == Ok(Grammar.Parse(input).value)
    ensures Grammar.Parse(input).Stop? ==> r == Err(Grammar.Parse(input).error)
  {
    var p := new Parser(input);
    r := p.Parse();
  }
}
