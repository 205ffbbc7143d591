# The WS-Labrador survey-language front end, modelled in Dafny

WS-Labrador compiles a small survey-authoring language. A survey is a
sequence of questions and sections. Each is headed by an attribute block
`<< ... >>`. A question goes on with its text and its options. An option is
`[ ... ]` followed by text; it is a column when it carries the `col`
attribute and a row otherwise. Between components stand interludes
`<% ... %>`, which hold statements of a small logic language: rules, actions,
condition sets, definitions, calls and expressions. Text may embed an
expression `${ ... }`.

This project models the front end of that compiler:

- **`Lexer`, `Lexing`, `LexicalRules`** (Tokenizer.ts) model the
  mode-switching tokenizer. `Lexer.Tokenizer` is a class over the text. It
  has the tokenizer's state (`pos`, `line`, `tokPos`, `tokLine`, `mode`) and
  one method per reader and per mode. Every method is proved against a pure
  step function: `Lexing.Step` over a `Cursor` value, and the scanning
  functions of `LexicalRules`. The lemmas about those functions state what
  the tokenizer promises: mode switches, text runs, word classification,
  greedy operators, numbers, strings and comments.
- **`Grammar`, `Parsing`** (Parser.ts) model the recursive-descent parser.
  `Grammar` defines each production as a function over the token sequence
  and a position. `Parsing.Parser` is a class with the parser's cursor
  (`token`, `prev`, `peeked`, and how many tokens were pulled). Its
  production methods run the source's loops, and each one is proved to
  return what the grammar function gives and to leave the cursor where that
  function says. The lemmas about `Grammar` state precedence climbing,
  left-nesting of property access, assignment, attributes, and sections,
  rows and columns. Together with the lexing lemmas they also show some
  consequences of the source as written. One is that no attribute read
  from text gets a value (see "## Left out").
- **`Tree`, `Scopes`** (Tree.ts, AST_Token.ts) model the AST as datatypes,
  with the constructors that check or rewrite their arguments. They also
  model the scope and symbol tables as classes over a `map`.
- **`Walking`** (TreeWalker.ts) models the tree walker. The traversal is a
  function returning the ordered trace of pre and post events. Applying the
  callbacks is a method that iterates over that trace.
- **`AttributeOrder`, `Checking`** (SemanticChecking.ts) model the semantic
  checks. They cover the in-place sort of `checkDuplicates` on an array, and
  every question and option check as a fail-fast function. Each check is
  proved to pass exactly when a declarative rule holds. The two-pass driver
  is proved to pass exactly when every component is well formed.
- **`Utils`** (Utils.ts) provides `Option`, `Result`, the error value
  `js_error` raises, `Map.get`, and JavaScript's `trim`.

Errors are values. `ParseError(message, line, pos)` is what `js_error`
throws. `Fault` is a JavaScript runtime error the source would raise, such as
a null dereference. `Diverges` names a place where the source loops for ever.

## Model

| member | source | states |
|---|---|---|
| Utils.Get | Utils.ts:52-54 | A lookup finds a value exactly when the key is in the map, and gives the stored value. |
| Utils.TrimStartSpec | Tokenizer.ts:157-159 | Trimming the start drops only whitespace and keeps a suffix that does not start with whitespace. |
| Utils.TrimEndSpec | Tokenizer.ts:157-159 | Trimming the end drops only whitespace and keeps a prefix that does not end with whitespace. |
| Utils.Trim | Tokenizer.ts:157-159 | `trim()` never lengthens its input. What it removes is stated by TrimSpan and TrimEnds. |
| Utils.TrimEnds | Tokenizer.ts:157-159 | The result of `trim()` neither starts nor ends with whitespace. |
| Utils.TrimSpan | Tokenizer.ts:157-159 | `trim()` gives a slice of its input, with only whitespace on either side of it. |
| Utils.TrimEmpty | Tokenizer.ts:157-159 | `trim()` gives the empty string exactly when its input is all whitespace. |
| Tree.MkSimpleStatement | Tree.ts:238-247 | The constructor succeeds exactly when the body is not a statement. Otherwise it fails with the nested-statement message at the start token. |
| Tree.MkAssign | Tree.ts:343-347 | The node's operator is "=" whatever operator is passed in. Its operands and span are the ones given. |
| Tree.MkSymbolRef | Tree.ts:365-369 | The name is the token's text, and the node starts and ends at that token. |
| Tree.MkString | Tree.ts:371-377 | A string node holds the token's text and spans exactly that token. |
| Tree.MkNum | Tree.ts:379-385 | A number node holds the lexeme and spans exactly that token. |
| Scopes.MapGet | Utils.ts:52-54 | A missing name gives `undefined`, never `null`. A present name gives its symbol. |
| Scopes.Symbol.constructor | Tree.ts:107-110 | A symbol gets its name and defining scope. A scoped symbol also gets an empty member table whose enclosing scope is fixed to the defining scope. |
| Scopes.Symbol.DefineMember | Tree.ts:112-115 | The member table stores the symbol under its name, and the symbol records the table as its defining scope. Afterwards the name resolves to it among the members. |
| Scopes.Symbol.ResolveMember | Tree.ts:124-126 | Finds a symbol exactly when the symbol's own table holds the name, and never consults an enclosing scope. |
| Scopes.Scope.constructor | Tree.ts:67-69 | A new scope is empty, with the enclosing scope it is given; a global scope has none. |
| Scopes.Scope.Define | Tree.ts:71-74 | Stores the symbol under its name, replacing an earlier one, and sets its defining scope. Afterwards the name resolves to it, every other name resolves as before, and every symbol is still stored under its own name. |
| Scopes.Scope.ResolveAsWritten | Tree.ts:76-81 | As written, `resolve` never answers `null` and finds a symbol only in its own scope. |
| Scopes.Scope.Resolve | Tree.ts:76-81 | The intended `resolve` never answers `undefined`, and a name the scope defines resolves to its own symbol. |
| Scopes.Scope.ResolveAsWrittenMissesEnclosing | Tree.ts:77-79 | A name defined only in the enclosing scope: the written `resolve` gives `undefined`, the intended one gives the enclosing scope's symbol. |
| Scopes.Scope.ResolveAsWrittenLocal | Tree.ts:76-78 | For a name the scope defines, the written and the intended `resolve` agree. |
| Scopes.Scope.ResolveFromChain | Tree.ts:76-81 | A symbol that resolution finds is defined by some scope of the enclosing chain. |
| Scopes.Scope.ResolveDefined | Tree.ts:76-81 | A name defined anywhere on the chain always resolves. |
| Scopes.Scope.ResolveNearest | Tree.ts:76-81 | Resolution finds the innermost scope of the chain that defines the name. |
| Scopes.Scope.Outside | Tree.ts:85-101 | A deeper scope is never on a shallower scope's chain, so chains are finite. |
| LexicalRules.LineAt | Tokenizer.ts:80-85 | The line of a position is at least 1. |
| LexicalRules.LineFlat | Tokenizer.ts:80-85 | Moving over text without a newline keeps the line number. |
| LexicalRules.SkipEnd | Tokenizer.ts:130-132 | The whitespace skip stays between the position and the end of the text. |
| LexicalRules.SkipEndSpec | Tokenizer.ts:130-132 | Skipping whitespace passes only spaces and newlines, and stops at the first other character or at the end. |
| LexicalRules.IdentEnd | Tokenizer.ts:102-109 | The identifier run stays between the position and the end of the text. |
| LexicalRules.IdentEndSpec | Tokenizer.ts:102-109 | An identifier is the longest run of identifier characters. |
| LexicalRules.TextEnd | Tokenizer.ts:155-160 | The text run stays between the position and the end of the text. |
| LexicalRules.TextEndSpec | Tokenizer.ts:155-160 | A text run holds no `<<`, `${`, `<%` or `[`, and stops at the first one or at the end. |
| LexicalRules.NumEnd | Tokenizer.ts:193-199 | The number run stays between the position and the end of the text. |
| LexicalRules.NumEndSpec | Tokenizer.ts:193-199 | A number is digits and at most one dot (none when a dot was read before), and stops at the first character that cannot continue it. |
| LexicalRules.EolFrom | Tokenizer.ts:92-99 | The end of a line is a newline or the end of the text, from the position on. |
| LexicalRules.Grow | Tokenizer.ts:212-221 | Growth ends between the position and the end of the text. |
| LexicalRules.GrowSpells | Tokenizer.ts:212-221 | The grown operator is the start followed by exactly the characters passed. |
| LexicalRules.GrowLongest | Tokenizer.ts:212-221 | Growth stops at the longest operator: the result is an operator when it grew, and the next character would not make one. |
| LexicalRules.Render | Tokenizer.ts:381-383 | Exactly the unexpected characters and the unterminated strings become `js_error`, at their recorded line and position. The other failures do not. |
| LexicalRules.StringEnd | Tokenizer.ts:177-191 | A closed string ends just after a character equal to its quote. |
| LexicalRules.ScanPlain | Tokenizer.ts:177-191 | A body with no raw newline, no unescaped quote and no final lone backslash ends just after the quote that follows it. |
| LexicalRules.ScanUnterminated | Tokenizer.ts:183-184 | A raw newline before the closing quote makes the string unterminated. |
| LexicalRules.AlWordKind | Tokenizer.ts:168-175 | A logic-language word becomes a value keyword, an operator, a call keyword, a keyword or an identifier. |
| LexicalRules.AtWordKind | Tokenizer.ts:162-166 | An attribute word is an attribute keyword exactly when it is in the attribute list, and an identifier otherwise. |
| LexicalRules.AlValueWords | Tokenizer.ts:168-175 | The value keywords are exactly "true", "false" and "undefined", and "and" is the one word that is an operator. |
| LexicalRules.AlCallWords | Tokenizer.ts:168-175 | A word is a call keyword exactly when it is in the call list. |
| LexicalRules.AlPlainKeywords | Tokenizer.ts:168-175 | The plain keywords are exactly "def", "rule", "action" and "conditions". |
| LexicalRules.AlIdentifiers | Tokenizer.ts:168-175 | A word is an identifier exactly when it is in no keyword list. |
| LexicalRules.UnlistedWords | Tokenizer.ts:25-28 | "answer", "for", "do" and "end" come out as identifiers. |
| LexicalRules.UnlistedAttribute | Tokenizer.ts:46 | "col" is not an attribute keyword. |
| LexicalRules.OperatorShapes | Tokenizer.ts:37 | Symbol operators have one or two characters, and the two-character ones are exactly "==", "<=", ">=" and "!=". |
| LexicalRules.GrowAtMostTwo | Tokenizer.ts:212-221 | Growth from one character takes at most one more. |
| LexicalRules.Escape | Tokenizer.ts:134-144 | `read_escaped_char`: the character an escape stands for. Decode uses it, and Lexer.Tokenizer.ReadEscapedChar is proved to give it. |
| LexicalRules.Decode | Tokenizer.ts:177-191 | The characters a string body stands for, as `read_string` appends them. Lexer.DecodedClosed, Lexing.StringToken and Lexing.StringClosed prove that a closed string holds this decoding of the text between its quotes. |
| Lexer.NormalizeNoCrlf | Tokenizer.ts:16 | A text without a carriage return before a newline is kept as it is. |
| Lexer.NormalizeDropsFirst | Tokenizer.ts:16 | The first carriage return before a newline is dropped, and everything after it is kept, later ones included. |
| Lexer.SecondCrlfKept | Tokenizer.ts:16 | Only the first line ending is normalised. |
| Lexer.DecodedClosed | Tokenizer.ts:177-191 | For a closed string, what `read_string` appends is the decoding of the text between the quotes. |
| Lexer.Tokenizer.constructor | Tokenizer.ts:15-22 | The text is the normalised source, and the state is the initial one: position 0, line 1, text mode. |
| Lexer.Tokenizer.StartToken | Tokenizer.ts:245-248 | The next token starts at the current position and line. |
| Lexer.Tokenizer.Consume | Tokenizer.ts:80-85 | Gives the character at the cursor and moves one on, counting a newline. At the end it gives null and changes nothing. |
| Lexer.Tokenizer.ConsumeInto | Tokenizer.ts:112-117 | The text read so far grows by the character at the cursor, and the cursor moves one on. |
| Lexer.Tokenizer.Forward | Tokenizer.ts:87-89 | Moves `n` characters on, or to the end, with the line kept in step. |
| Lexer.Tokenizer.SkipWhitespace | Tokenizer.ts:130-132 | Moves past spaces and newlines to where SkipEndSpec says. |
| Lexer.Tokenizer.FindEol | Tokenizer.ts:92-99 | Gives the first newline from the cursor on, or -1 when there is none. |
| Lexer.Tokenizer.SkipLineComment | Tokenizer.ts:119-128 | Moves to the first newline from the cursor (not past it), or to the end, and keeps the state valid. |
| Lexer.Tokenizer.ReadIdentifier | Tokenizer.ts:102-109 | Reads exactly the identifier run from the cursor. |
| Lexer.Tokenizer.ReadText | Tokenizer.ts:155-160 | Gives the text run up to the next opener, trimmed, as a text token starting where `start_token` left it. |
| Lexer.Tokenizer.ReadEscapedChar | Tokenizer.ts:134-144 | Gives the escape of the next character and moves past it. At the end it gives null. |
| Lexer.Tokenizer.ReadString | Tokenizer.ts:177-191 | Reads the string the step function describes: its token, or its failure. |
| Lexer.Tokenizer.StringBody | Tokenizer.ts:179-190 | The loop ends as the scan function says. When the quote closes it, the loop has appended the decoding of the body. |
| Lexer.Tokenizer.StringChar | Tokenizer.ts:179-189 | Each round appends the first character of what remains to decode, or reports how the string ends. |
| Lexer.Tokenizer.ReadNum | Tokenizer.ts:193-207 | Reads exactly the digits and at most one dot that NumEndSpec describes. |
| Lexer.Tokenizer.GrowOperator | Tokenizer.ts:212-221 | Grows the operator as Grow does and moves past what it read. |
| Lexer.Tokenizer.ReadOperator | Tokenizer.ts:209-224 | Gives the grown operator as a token at the recorded start. |
| Lexer.Tokenizer.HandleSlash | Tokenizer.ts:228-236 | `//` skips to the end of its line and gives no token; otherwise `/` starts an operator. |
| Lexer.Tokenizer.HandleDot | Tokenizer.ts:238-243 | Matches the dot step: a number when a digit follows, else punctuation "."; at the end it fails. |
| Lexer.Tokenizer.ReadIdentifierAt | Tokenizer.ts:162-166 | Reads the word and classifies it as AtWordKind does. |
| Lexer.Tokenizer.ReadIdentifierAl | Tokenizer.ts:168-175 | Reads the word and classifies it as AlWordKind does. |
| Lexer.Tokenizer.TextMode | Tokenizer.ts:254-278 | Gives the text-mode step's token and state. |
| Lexer.Tokenizer.AttributeMode | Tokenizer.ts:282-317 | Gives the attribute-mode step's token and state for both attribute modes. |
| Lexer.Tokenizer.AlDispatch | Tokenizer.ts:359-372 | The token switch of `al_mode` gives the logic-mode token function's result. |
| Lexer.Tokenizer.EndEmbedded | Tokenizer.ts:319-328 | `}` in an embedded expression gives the logic-mode token function's result. |
| Lexer.Tokenizer.HandlePercentage | Tokenizer.ts:333-341 | `%` in a logic block gives the logic-mode token function's result. |
| Lexer.Tokenizer.AlMode | Tokenizer.ts:345-374 | The `for(;;)` loop, comments included, gives the logic-mode step's token and state. |
| Lexer.Tokenizer.NextToken | Tokenizer.ts:376-378 | Gives the current mode's step: the token with the new, valid state, or the error the source throws. |
| Lexer.NormalizeFirst | Tokenizer.ts:16 | The text the tokenizer scans, after `replace("\r\n", "\n")`. NormalizeNoCrlf, NormalizeDropsFirst and SecondCrlfKept prove that only the first CRLF is rewritten. |
| Lexing.InitialValid | Tokenizer.ts:15-22 | The initial state satisfies the position and line invariant. |
| Lexing.MoveTo | Tokenizer.ts:80-89 | A moved cursor has its line equal to one more than the newlines before the new position, and keeps its token start and mode. |
| Lexing.AlStart | Tokenizer.ts:347-363 | The logic-mode loop ends at a valid token start that is not a comment, in the same mode, and not before where it began. |
| Lexing.StepValid | Tokenizer.ts:376-378 | Every step keeps the state valid and moves forward. It reports eof only at the end of the text. |
| Lexing.TextStepValid | Tokenizer.ts:254-278 | The text-mode step keeps the state valid and moves forward. |
| Lexing.AttrStepValid | Tokenizer.ts:282-317 | The attribute-mode step keeps the state valid and moves forward. |
| Lexing.AlStepValid | Tokenizer.ts:345-374 | The logic-mode step keeps the state valid and moves forward. |
| Lexing.AlTokenValid | Tokenizer.ts:364-372 | One logic-language token keeps the state valid and moves forward. |
| Lexing.TextDispatch | Tokenizer.ts:254-278 | At the end, text mode gives eof and stays. Each opener gives its token, takes exactly its one or two characters and enters its mode. |
| Lexing.TextRun | Tokenizer.ts:276-277 | Elsewhere, text mode gives the maximal run without an opener, trimmed, starting where the run starts. The run is not empty, and the value is empty exactly when the run is all whitespace. |
| Lexing.TextRunStep | Tokenizer.ts:276-277 | Away from an opener, text mode reads up to the next opener. |
| Lexing.AttrStepNoOperator | Tokenizer.ts:300-317 | The attribute modes never give an operator token. |
| Lexing.AttrEqualsIsPunc | Tokenizer.ts:313 | In an attribute mode, "=" is the punctuation "=" at its own position. |
| Lexing.AttributeModes | Tokenizer.ts:282-317 | `>>` and `]` return to text mode. `${` in either attribute mode opens an expression that returns to question attributes. |
| Lexing.LogicModes | Tokenizer.ts:319-341 | `}` returns to the mode the expression was opened in. `%>` returns to text, and a lone `%` in a logic block is the punctuation "%". |
| Lexing.EmbeddedGoesBack | Tokenizer.ts:268 | An embedded expression always returns to text or to question attributes. |
| Lexing.CommentSkipped | Tokenizer.ts:359-363 | The token after a `//` comment is read as if the comment were not there. |
| Lexing.SkipToEol | Tokenizer.ts:359-363 | A comment is skipped to the end of its line and scanning goes on from there. |
| Lexing.AtToken | Tokenizer.ts:347-358 | Away from a comment, a logic-mode step reads one token from the first non-space character. |
| Lexing.AlQuote | Tokenizer.ts:364-365 | A quote after the whitespace starts a string in the logic modes. |
| Lexing.AttrQuote | Tokenizer.ts:308-309 | A quote after the whitespace starts a string in the attribute modes. |
| Lexing.StringToken | Tokenizer.ts:177-191 | A quote, a plain body and the same quote again are one string token holding the decoded body. |
| Lexing.StringClosed | Tokenizer.ts:177-191 | A string read to its closing quote holds the decoding of the text between the quotes. |
| Lexing.NumberToken | Tokenizer.ts:193-207 | A number starts with a digit, or with a dot that a digit follows. It holds digits and at most one dot. |
| Lexing.DotToken | Tokenizer.ts:238-243 | A dot without a digit after it is punctuation "."; a dot at the end of the input fails. |
| Lexing.OperatorToken | Tokenizer.ts:209-224 | An operator is its first character alone, or that character and the next when together they are "==", "<=", ">=" or "!=". |
| Lexing.OperatorAt | Tokenizer.ts:368 | An operator character starts an operator token. |
| Lexing.OperatorGrows | Tokenizer.ts:209-224 | Growth from the first character, even one that is not an operator by itself, stops after at most two characters. |
| Lexing.Step | Tokenizer.ts:376-378 | `next_token`: the scanner of the current mode. StepValid proves that every step keeps the cursor valid, moves forward and gives eof only at the end of the text. Lexer.Tokenizer.NextToken is proved to do what Step says. |
| Lexing.TextStep | Tokenizer.ts:254-278 | `text_mode` as a step function. TextStepValid, TextDispatch, TextRun and TextRunStep state its openers, mode switches and text runs. |
| Lexing.AttrStep | Tokenizer.ts:282-317 | `question_attribute_mode` and `option_attribute_mode` through `attribute_mode`. AttrStepValid, AttributeModes and AttrQuote state its closers, mode switches and strings. |
| Lexing.AlStep | Tokenizer.ts:319-374 | `al_mode` for embedded expressions and logic blocks. AlStepValid, LogicModes, EmbeddedGoesBack, CommentSkipped and AtToken state its mode switches and comment skipping. |
| Lexing.AlToken | Tokenizer.ts:349-373 | The token switch of `al_mode`. AlTokenValid proves that it keeps the cursor valid and moves forward. |
| Lexing.StringStep | Tokenizer.ts:177-191 | `read_string` from its opening quote. StringToken and StringClosed prove that a closed string holds the decoding of its body, and LexicalRules.ScanUnterminated proves that a raw newline makes it unterminated. |
| Lexing.DotStep | Tokenizer.ts:238-243 | `handle_dot`. DotToken and NumberToken prove that it gives a number when a digit follows, punctuation "." otherwise, and a failure at the end of the input. |
| Lexing.OperatorStep | Tokenizer.ts:209-224 | `read_operator`. OperatorToken and OperatorGrows prove that an operator has one character, or two when together they form "==", "<=", ">=" or "!=". |
| Grammar.MatchToken | Parser.ts:102-106 | Succeeds exactly when the current token has the kind (and the value, when one is given). It gives that token and moves one on. Otherwise it fails with the expecting/but-found message. |
| Grammar.LevelOf | Parser.ts:235-243 | The table maps an operator to one more than the index of the last level holding it, and has no entry for an operator in no level. |
| Grammar.Atom | Parser.ts:196-233 | An atom reads at least one token and stays inside the stream. |
| Grammar.Literal | Parser.ts:138-166 | A literal reads exactly one token. |
| Grammar.Paren | Parser.ts:200-208 | A parenthesised expression reads at least "(". |
| Grammar.CloseParen | Parser.ts:205-207 | The ")" and the accesses after it read at least one token. |
| Grammar.PropAccess | Parser.ts:118-130 | Without a "." the container is returned unchanged. Otherwise the result is an access, built only on a symbol or an access, and it keeps the container's start. |
| Grammar.AnswerHas | Parser.ts:180-194 | An answer test reads at least one token. |
| Grammar.AnswerVerb | Parser.ts:185-193 | The verb and its arguments read at least one token. |
| Grammar.Args | Parser.ts:168-178 | An argument list reads "(" and holds at least one expression. |
| Grammar.ArgsRest | Parser.ts:171-177 | The loop keeps the arguments already read. |
| Grammar.CommaArg | Parser.ts:172-173 | "," and an expression read at least one token. |
| Grammar.Ops | Parser.ts:254-263 | Precedence climbing never moves back. |
| Grammar.Operand | Parser.ts:259 | The right operand reads at least one token. |
| Grammar.ExprOps | Parser.ts:265-267 | An operator expression reads at least one token. |
| Grammar.Expr | Parser.ts:280-295 | An expression reads at least one token. |
| Grammar.Simple | Parser.ts:425-427 | A simple statement reads at least one token. |
| Grammar.Condition | Parser.ts:429-432 | A condition reads at least one token. |
| Grammar.Block | Parser.ts:414-423 | A block reads at least "{". |
| Grammar.BlockRest | Parser.ts:418-422 | The rest of a block reads at least "}". |
| Grammar.Rule | Parser.ts:434-445 | A rule reads at least its keyword. |
| Grammar.RuleConditions | Parser.ts:437-439 | The ":" and the conditions read at least one token. |
| Grammar.RuleRest | Parser.ts:440-444 | The rest of a rule reads at least its action block. |
| Grammar.Action | Parser.ts:447-452 | An action reads at least its keyword. |
| Grammar.ConditionSet | Parser.ts:454-465 | A condition set reads at least its keyword. |
| Grammar.ConditionSetConditions | Parser.ts:457-459 | The ":" and the conditions read at least one token. |
| Grammar.ConditionSetRest | Parser.ts:460-464 | The loop up to "end" never moves back. |
| Grammar.Def | Parser.ts:467-477 | A definition reads at least its keyword. |
| Grammar.Command | Parser.ts:479-484 | A built-in command reads at least its keyword. |
| Grammar.Target | Parser.ts:486-498 | `evaluate` and `do` read at least their keyword. |
| Grammar.Statement | Parser.ts:500-547 | A statement gives a node exactly when it read something, and nothing when it fell out of its switch without reading. |
| Grammar.KeywordStatement | Parser.ts:527-542 | A keyword statement reads at least one token. |
| Grammar.InterludeOf | Parser.ts:549-558 | An interlude reads at least "<%". |
| Grammar.InterludeRest | Parser.ts:552-557 | The rest of an interlude reads at least "%>". |
| Grammar.Attribute | Parser.ts:297-319 | An attribute reads at least one token. |
| Grammar.AttributeValue | Parser.ts:300-310 | An attribute value is exactly one token. |
| Grammar.AttributeForms | Parser.ts:297-319 | A keyword is a built-in attribute. It takes a string value only when an Operator "=" token follows, which is the test Parser.ts:300 makes. A bare identifier is a custom attribute with no value. |
| Grammar.PuncEqualsRefused | Parser.ts:297-319 | An attribute keyword followed by a punctuation "=", which is what the attribute modes give, is read without a value. The "=" then fails as an attribute name with "SyntaxError: Invalid attribute name =". |
| Grammar.AttrsWithoutOperator | Parser.ts:331-357 | When no operator token comes before the closer, as the attribute modes guarantee, every attribute of the block has no value. |
| Grammar.AttrsRest | Parser.ts:334-337 | The attribute loop reads at least the closer. |
| Grammar.AttrBlock | Parser.ts:331-339 | An attribute block reads at least its opener. |
| Grammar.TextNode | Parser.ts:321-329 | A text is exactly one token. |
| Grammar.Texts | Parser.ts:341-347 | The text loop never moves back. |
| Grammar.TextsAreStrings | Parser.ts:341-347 | The texts are one string node per text token up to eof, "[", "<%" or "<<", after the ones already read. |
| Grammar.Options | Parser.ts:367-390 | The option loop never moves back. |
| Grammar.OptionAt | Parser.ts:369-388 | An option starts at its "[" and reads at least that. |
| Grammar.OptionBody | Parser.ts:372-387 | An option keeps its start and its attributes. |
| Grammar.QuestionOf | Parser.ts:392-412 | A question or section reads at least "<<". |
| Grammar.QuestionBody | Parser.ts:397-408 | The body of a question never moves back. |
| Grammar.ParseRest | Parser.ts:561-574 | A parsed survey ends at the eof token. |
| Grammar.ComponentAt | Parser.ts:564-571 | A component reads at least one token. |
| Grammar.Parse | Parser.ts:561-574 | A parsed survey ends at the eof token. |
| Grammar.PrecedenceTable | Parser.ts:235-252 | "and" is 1, "==" and "!=" are 2, the comparisons 3, "+" and "-" 4, "*", "/" and "%" 5, and nothing else has a precedence. |
| Grammar.AtomLeaf | Parser.ts:210-223 | A name, number, string or value keyword not followed by "." is a one-token atom. |
| Grammar.FoldsLeft | Parser.ts:254-263 | `a op b op' c` with op' not above op parses as `(a op b) op' c`, so `1-2-3` is `(1-2)-3`. |
| Grammar.HigherBindsFirst | Parser.ts:254-263 | `a op b op' c` with op' above op parses as `a op (b op' c)`, so `1+2*3` is `1+(2*3)`. |
| Grammar.ClimbingExamples | Parser.ts:244-263 | `-`/`-` folds left, `+`/`*` and `and`/`==` bind the right pair first. |
| Grammar.SpineTrans | Parser.ts:260 | The left-spine relation between binary nodes is transitive. |
| Grammar.OpsSpans | Parser.ts:260 | Every binary node climbing builds starts where its left operand starts. |
| Grammar.UnlistedOperatorsStop | Parser.ts:255-262 | "=" and "!", which have no precedence, stop the loop unread. |
| Grammar.RespanKeepsTree | Parser.ts:204-205 | Widening a parenthesised expression to its parentheses keeps it an expression tree. |
| Grammar.ExprIsTree | Parser.ts:293-295 | An expression holds only expression nodes, and each assignment in it assigns to a bare symbol. |
| Grammar.ExprOpsIsTree | Parser.ts:265-267 | An operator expression is built only from expression nodes. |
| Grammar.OperandIsTree | Parser.ts:259 | An operand is built only from expression nodes. |
| Grammar.AtomIsTree | Parser.ts:196-233 | An atom is built only from expression nodes. |
| Grammar.ParenIsTree | Parser.ts:200-208 | A parenthesised expression is built only from expression nodes. |
| Grammar.PropAccessIsTree | Parser.ts:118-130 | Property access on an expression tree gives an expression tree. |
| Grammar.AnswerHasIsTree | Parser.ts:180-194 | An answer test is built only from expression nodes. |
| Grammar.ArgsAreTrees | Parser.ts:168-178 | Every argument is an expression tree. |
| Grammar.ArgsRestAreTrees | Parser.ts:171-177 | The argument loop keeps every argument an expression tree. |
| Grammar.OpsIsTree | Parser.ts:254-263 | Climbing from an expression tree gives an expression tree. |
| Grammar.AssignOnlyToSymbols | Parser.ts:280-291 | With "=" next, the assignment is built exactly when the left side is a bare symbol, and fails with "Invalid assignment" otherwise. Its right side is what `expr_ops` reads. |
| Grammar.NoChainedAssign | Parser.ts:286 | `x = y = z` reads `x = y` and stops at the second "=". |
| Grammar.AccessChain | Parser.ts:118-130 | `k` accesses after a symbol nest to the left and keep the symbol's start. |
| Grammar.InvalidPropertyName | Parser.ts:123-125 | A "." not followed by an identifier fails with "invalid property name" at the token after the dot. |
| Grammar.AccessEnds | Parser.ts:119-129 | Without a "." the container is returned unchanged. |
| Grammar.NestsLeft | Parser.ts:122 | `a.b.c` is `Dot(Dot(a, b), c)`. |
| Grammar.IsColumnFindsCol | Parser.ts:376-382 | The search loop finds a column exactly when some attribute is named "col". |
| Grammar.OptionClassified | Parser.ts:384-388 | An option is a column exactly when it carries "col". |
| Grammar.OptionsClassified | Parser.ts:367-390 | Every option read is a column exactly when it carries "col". |
| Grammar.RowsKeepOrder | Parser.ts:401-403 | Selecting rows keeps their relative order. |
| Grammar.ColumnsKeepOrder | Parser.ts:404-406 | Selecting columns keeps their relative order. |
| Grammar.FiltersPartition | Parser.ts:401-406 | Rows and columns together are exactly the options. |
| Grammar.FiltersSelect | Parser.ts:401-406 | The rows are the options that are rows, and the columns the ones that are columns. |
| Grammar.SectionOrQuestion | Parser.ts:392-411 | An attribute block followed at once by "<<" or "<%" is a section ending at the block's ">>". Otherwise it is a question. Either way the component starts at "<<" and its attributes are the block's. |
| Grammar.QuestionRowsAndColumns | Parser.ts:397-408 | A question's rows lack "col" and its columns carry it. |
| Grammar.InterludeSpins | Parser.ts:549-558 | Punctuation other than "(" right after "<%" is never read, so the parser loops for ever. |
| Grammar.Is | Parser.ts:25-27 | `is(type, val)` on the token stream. Grammar.MatchToken and Parsing.Parser.CheckToken are stated in terms of it. |
| Grammar.Precedence | Parser.ts:235-252 | The `PRECEDENCE` table. PrecedenceTable proves its entries, and UnlistedOperatorsStop proves that an unlisted operator stops climbing. |
| Grammar.IsAssignable | Parser.ts:274-278 | `is_assignable`. AssignOnlyToSymbols proves that an assignment is built exactly when the left side is a bare symbol. |
| Grammar.IsColumn | Parser.ts:375-381 | The search of `_options` for a "col" attribute. IsColumnFindsCol proves that it finds one exactly when some attribute is named "col". |
| Grammar.RowsOf | Parser.ts:401-403 | The row filter of `question()`. RowsKeepOrder, FiltersPartition and FiltersSelect prove that it keeps exactly the rows, in order. |
| Grammar.ColumnsOf | Parser.ts:404-406 | The column filter of `question()`. ColumnsKeepOrder, FiltersPartition and FiltersSelect prove that it keeps exactly the columns, in order. |
| Parsing.Parser.constructor | Parser.ts:16-23 | The first token is current, with no previous one and nothing peeked. |
| Parsing.Parser.Input | Parser.ts:16-21 | Pulls exactly the next token of the stream and changes nothing else. |
| Parsing.Parser.Peek | Parser.ts:33-35 | Repeated peeks pull at most once and give the same token. |
| Parsing.Parser.Next | Parser.ts:37-46 | The outgoing token becomes the previous one. The peeked token, or else exactly one new one, becomes current, and the peek slot is cleared. |
| Parsing.Parser.CheckToken | Parser.ts:52-100 | Gives the current token exactly when it is as asked, else the expecting/but-found error. |
| Parsing.Parser.MatchToken | Parser.ts:102-106 | Behaves as Grammar.MatchToken from the current position. |
| Parsing.Parser.SymbolRefNode | Parser.ts:132-136 | Gives a symbol for the current token and moves one on. |
| Parsing.Parser.PropAccess | Parser.ts:118-130 | Behaves as Grammar.PropAccess from the current position. |
| Parsing.Parser.Atom | Parser.ts:196-233 | Behaves as Grammar.Atom from the current position. |
| Parsing.Parser.Name | Parser.ts:210-211 | Behaves as Grammar.PropAccess on the symbol for the current token. |
| Parsing.Parser.Literal | Parser.ts:138-166 | Behaves as Grammar.Literal from the current position. |
| Parsing.Parser.Paren | Parser.ts:200-208 | Behaves as Grammar.Paren from the current position. |
| Parsing.Parser.CloseParen | Parser.ts:205-207 | Behaves as Grammar.CloseParen from the current position. |
| Parsing.Parser.AnswerHas | Parser.ts:180-194 | Behaves as Grammar.AnswerHas from the current position. |
| Parsing.Parser.AnswerVerb | Parser.ts:185-193 | Behaves as Grammar.AnswerVerb from the current position. |
| Parsing.Parser.ArgsList | Parser.ts:168-178 | Behaves as Grammar.Args from the current position. |
| Parsing.Parser.MoreArgs | Parser.ts:171-177 | Behaves as Grammar.ArgsRest from the current position. |
| Parsing.Parser.CommaArg | Parser.ts:172-173 | Behaves as Grammar.CommaArg from the current position. |
| Parsing.Parser.ExprOp | Parser.ts:254-263 | Behaves as Grammar.Ops from the current position. |
| Parsing.Parser.Operand | Parser.ts:259 | Behaves as Grammar.Operand from the current position. |
| Parsing.Parser.ExprOps | Parser.ts:265-267 | Behaves as Grammar.ExprOps from the current position. |
| Parsing.Parser.Expression | Parser.ts:280-295 | Behaves as Grammar.Expr from the current position. |
| Parsing.Parser.Simple | Parser.ts:425-427 | Behaves as Grammar.Simple from the current position. |
| Parsing.Parser.Condition | Parser.ts:429-432 | Behaves as Grammar.Condition from the current position. |
| Parsing.Parser.Block | Parser.ts:414-423 | Behaves as Grammar.Block from the current position. |
| Parsing.Parser.BlockRest | Parser.ts:418-422 | Behaves as Grammar.BlockRest from the current position. |
| Parsing.Parser.CloseBlock | Parser.ts:421-422 | At "}", behaves as Grammar.BlockRest. |
| Parsing.Parser.Rule | Parser.ts:434-445 | Behaves as Grammar.Rule from the current position. |
| Parsing.Parser.RuleConditions | Parser.ts:437-439 | Behaves as Grammar.RuleConditions from the current position. |
| Parsing.Parser.RuleRest | Parser.ts:440-444 | Behaves as Grammar.RuleRest from the current position. |
| Parsing.Parser.RuleAction | Parser.ts:443-444 | At "{", behaves as Grammar.RuleRest. |
| Parsing.Parser.Action | Parser.ts:447-452 | Behaves as Grammar.Action from the current position. |
| Parsing.Parser.ConditionSet | Parser.ts:454-465 | Behaves as Grammar.ConditionSet from the current position. |
| Parsing.Parser.ConditionSetConditions | Parser.ts:457-459 | Behaves as Grammar.ConditionSetConditions from the current position. |
| Parsing.Parser.ConditionSetRest | Parser.ts:460-464 | Behaves as Grammar.ConditionSetRest from the current position. |
| Parsing.Parser.EndConditionSet | Parser.ts:464 | At "end", behaves as Grammar.ConditionSetRest and reads nothing. |
| Parsing.Parser.Def | Parser.ts:467-477 | Behaves as Grammar.Def from the current position. |
| Parsing.Parser.Command | Parser.ts:479-484 | Behaves as Grammar.Command from the current position. |
| Parsing.Parser.Target | Parser.ts:486-498 | Behaves as Grammar.Target from the current position. |
| Parsing.Parser.Statement | Parser.ts:500-547 | Behaves as Grammar.Statement from the current position. |
| Parsing.Parser.Call | Parser.ts:512-525 | On a call keyword, behaves as Grammar.Statement. |
| Parsing.Parser.Keyword | Parser.ts:526-542 | Behaves as Grammar.KeywordStatement from the current position. |
| Parsing.Parser.OtherKeyword | Parser.ts:532-541 | On a keyword other than "rule" and "action", behaves as Grammar.KeywordStatement. |
| Parsing.Parser.InterludeOf | Parser.ts:549-558 | Behaves as Grammar.InterludeOf from the current position. |
| Parsing.Parser.InterludeRest | Parser.ts:552-557 | Behaves as Grammar.InterludeRest from the current position. |
| Parsing.Parser.CloseInterlude | Parser.ts:556-557 | At "%>", behaves as Grammar.InterludeRest. |
| Parsing.Parser.Attribute | Parser.ts:297-319 | Behaves as Grammar.Attribute from the current position. |
| Parsing.Parser.AttributeValue | Parser.ts:300-310 | Behaves as Grammar.AttributeValue from the current position. |
| Parsing.Parser.QuestionAttrib | Parser.ts:331-339 | Behaves as Grammar.AttrBlock with "<<" and ">>". |
| Parsing.Parser.OptionAttrib | Parser.ts:349-357 | Behaves as Grammar.AttrBlock with "[" and "]". |
| Parsing.Parser.AttrsRest | Parser.ts:334-337 | Behaves as Grammar.AttrsRest from the current position. |
| Parsing.Parser.CloseAttrs | Parser.ts:337-338 | At the closer, behaves as Grammar.AttrsRest. |
| Parsing.Parser.TextNode | Parser.ts:321-329 | Behaves as Grammar.TextNode from the current position. |
| Parsing.Parser.Texts | Parser.ts:341-347 | Behaves as Grammar.Texts from the current position. |
| Parsing.Parser.OptionAt | Parser.ts:369-388 | Behaves as Grammar.OptionAt from the current position. |
| Parsing.Parser.OptionBody | Parser.ts:372-387 | Behaves as Grammar.OptionBody from the current position. |
| Parsing.Parser.Options | Parser.ts:367-390 | Behaves as Grammar.Options from the current position. |
| Parsing.Parser.EndOptions | Parser.ts:369 | At eof, "<<" or "<%", behaves as Grammar.Options and reads nothing. |
| Parsing.Parser.QuestionOf | Parser.ts:392-412 | Behaves as Grammar.QuestionOf from the current position. |
| Parsing.Parser.QuestionBody | Parser.ts:397-408 | Behaves as Grammar.QuestionBody from the current position. |
| Parsing.Parser.Parse | Parser.ts:561-574 | Behaves as Grammar.ParseRest from the current position. |
| Parsing.Parser.EndOfInput | Parser.ts:563 | At eof, behaves as Grammar.ParseRest and reads nothing. |
| Parsing.Parser.ComponentAt | Parser.ts:564-571 | Behaves as Grammar.ComponentAt from the current position. |
| Parsing.ParseSurvey | Parser.ts:7-577 | Gives the survey Grammar.Parse gives, or its error. |
| Walking.NestAppend | TreeWalker.ts:8-14 | Replaying a concatenation of traces replays the first, then the second from where it left off. |
| Walking.NestBelow | TreeWalker.ts:8-14 | Visits opened further out do not change how a trace replays. |
| Walking.BalancedAppend | TreeWalker.ts:18-25 | Two balanced traces in sequence are balanced. |
| Walking.BalancedAround | TreeWalker.ts:8-14 | A node's pre event, a balanced walk and its post event are balanced. |
| Walking.FaultLastThen | TreeWalker.ts:18-25 | Sequencing keeps a fault as the last event. |
| Walking.FaultLastAround | TreeWalker.ts:8-14 | A walker that throws does not call the post callback. |
| Walking.WalkNodeShape | TreeWalker.ts:118-182 | A node's walk starts with its pre event and is balanced, or it ends with its one fault: each pre event is matched by the same node's post event after all its descendants. |
| Walking.ChildrenShape | TreeWalker.ts:62-114 | The children's walk is balanced or ends with its one fault. |
| Walking.PairChildrenShape | TreeWalker.ts:81-106 | The same for the nodes whose children are walked in two parts. |
| Walking.WalkNodesShape | TreeWalker.ts:66-70 | A list walk is balanced or ends with its one fault. |
| Walking.ThenShape | TreeWalker.ts:18-25 | Sequencing keeps the shape. |
| Walking.AroundShape | TreeWalker.ts:8-14 | Wrapping in pre and post events keeps the shape. |
| Walking.LeafWalk | TreeWalker.ts:173-180 | Leaves get only their own pre and post events. |
| Walking.ValuelessAttributeWalk | TreeWalker.ts:58-60 | An attribute without a value has no child visit. |
| Walking.MissingInitFaults | TreeWalker.ts:112-114 | A declaration without an initialiser throws right after its pre event. This is reachable only in the repaired tree, where interlude statements are walked (see "## Left out"). |
| Walking.BinaryWalkOrder | TreeWalker.ts:103-106 | Binary and assignment nodes: pre, the left walk, the right walk, post. |
| Walking.QuestionWalkOrder | TreeWalker.ts:16-27 | A question: pre, texts, attributes, rows, columns, post. |
| Walking.OptionWalkOrder | TreeWalker.ts:44-56 | A row or column: pre, texts, attributes, post. |
| Walking.SectionWalkOrder | TreeWalker.ts:29-34 | A section: pre, attributes, post, and nothing else. |
| Walking.RuleWalkOrder | TreeWalker.ts:81-85 | A rule: pre, conditions, action, post. |
| Walking.AnswerWalkOrder | TreeWalker.ts:96-101 | An answer test: pre, question, answers, post. |
| Walking.ThenNoFault | TreeWalker.ts:18-25 | Walks that do not throw are simply concatenated. |
| Walking.WalkRootAppend | TreeWalker.ts:186-190 | The components are walked in list order: a concatenation walks the first part, then (unless it threw) the second. |
| Walking.RunPassIff | TreeWalker.ts:8-14 | A run passes exactly when every event's callback passes. |
| Walking.RunAppend | TreeWalker.ts:8-14 | A trace of two parts passes exactly when both do. |
| Walking.RunThen | TreeWalker.ts:18-25 | Two walks in sequence pass exactly when both do. |
| Walking.RunAround | TreeWalker.ts:8-14 | Visiting a node passes exactly when both its callbacks and its children's walk pass. |
| Walking.RunWalkNode | TreeWalker.ts:118-182 | With callbacks that accept every node, a node's walk passes exactly when no declaration in it lacks an initialiser. |
| Walking.RunChildren | TreeWalker.ts:62-114 | The same for a node's children. |
| Walking.RunOneChild | TreeWalker.ts:62-114 | The same for the nodes with at most one child. |
| Walking.RunListChildren | TreeWalker.ts:66-94 | The same for the nodes with a list of children. |
| Walking.RunPairChildren | TreeWalker.ts:81-106 | The same for the nodes with two parts. |
| Walking.RunWalkNodes | TreeWalker.ts:66-70 | A list walk passes exactly when every node is complete. |
| Walking.RunWalkAttr | TreeWalker.ts:58-60 | An attribute's walk passes exactly when its callback accepts it and its value is complete. |
| Walking.RunWalkAttrs | TreeWalker.ts:20-21 | An attribute list's walk passes exactly when every attribute passes. |
| Walking.RunWalkOpt | TreeWalker.ts:44-56 | An option's walk passes exactly when its callback, texts and attributes pass. |
| Walking.RunWalkOpts | TreeWalker.ts:22-25 | An option list's walk passes exactly when every option passes. |
| Walking.RunWalkComponent | TreeWalker.ts:16-41 | A component's walk passes exactly when its callback and everything below it pass. |
| Walking.RunWalkRoot | TreeWalker.ts:186-190 | The walk of a survey passes exactly when every component passes. |
| Walking.ApplyCallbacks | TreeWalker.ts:9-13 | Calls the callbacks event by event and passes exactly when every call passes. A failure is the first failing call. |
| Walking.WalkNode | TreeWalker.ts:118-182 | `_walk` on a logic-language node as its trace of events. WalkNodeShape proves that the trace starts with the node's pre event and is balanced or ends in its one fault. RunWalkNode proves when running it passes. |
| Walking.WalkChildren | TreeWalker.ts:62-116 | The children each per-variant walker visits, in order. ChildrenShape, BinaryWalkOrder, RuleWalkOrder, AnswerWalkOrder and RunChildren state it. |
| Walking.WalkNodes | TreeWalker.ts:66-70 | A `for ... of` loop of `_walk` calls. WalkNodesShape and RunWalkNodes state it. |
| Walking.WalkAttr | TreeWalker.ts:58-60 | `walkAttrib`. ValuelessAttributeWalk and RunWalkAttr state it. |
| Walking.WalkAttrs | TreeWalker.ts:20-21 | The loop over a node's attributes. RunWalkAttrs proves that its walk passes exactly when every attribute passes. |
| Walking.WalkOpt | TreeWalker.ts:44-56 | `walkRow` and `walkCol`. OptionWalkOrder and RunWalkOpt state it. |
| Walking.WalkOpts | TreeWalker.ts:22-25 | The loops over a question's rows and columns. RunWalkOpts proves that the walk passes exactly when every option passes. |
| Walking.WalkComponent | TreeWalker.ts:16-42 | `walkQuestion`, `walkSection` and `walkInterlude`. QuestionWalkOrder, SectionWalkOrder and RunWalkComponent state them. |
| Walking.WalkRoot | TreeWalker.ts:186-190 | The closure `Walker` returns. WalkRootAppend proves that components are walked in list order, and RunWalkRoot proves when the walk passes. |
| Walking.Run | TreeWalker.ts:8-14 | Calling the optional callbacks along a trace, stopping at the first failure. RunPassIff, RunAppend, RunThen and RunAround state it, and Walking.ApplyCallbacks is proved to compute it. |
| Walking.Step | TreeWalker.ts:10-12 | One callback call, or the fault the walker raises. RunPassIff states a run in terms of it. |
| AttributeOrder.LexIrreflexive | SemanticChecking.ts:44 | No name sorts before itself. |
| AttributeOrder.LexTransitive | SemanticChecking.ts:44 | String order is transitive. |
| AttributeOrder.LexTotal | SemanticChecking.ts:44-46 | Two different names are ordered one way or the other. |
| AttributeOrder.LexAsymmetric | SemanticChecking.ts:44-46 | Two names are never ordered both ways. |
| AttributeOrder.NameLeTransitive | SemanticChecking.ts:43-47 | The comparator's "not after" is transitive. |
| AttributeOrder.InsertAt | SemanticChecking.ts:43-47 | Insertion places the attribute after the prefix that does not sort after it, and before the rest. |
| AttributeOrder.InsertSorted | SemanticChecking.ts:43-47 | Insertion into a sorted list gives a sorted list one longer. |
| AttributeOrder.InsertMultiset | SemanticChecking.ts:43-47 | Insertion adds exactly the inserted attribute. |
| AttributeOrder.SortSorted | SemanticChecking.ts:43-47 | The sort's result is ordered by name and as long as its input. |
| AttributeOrder.SortPermutes | SemanticChecking.ts:43-47 | The sort's result is a permutation of its input. |
| AttributeOrder.SortInPlace | SemanticChecking.ts:43-47 | The array is sorted in place by name, is a permutation of what it held, and equals the stable sort of it. |
| AttributeOrder.InsertNext | SemanticChecking.ts:43-47 | One insertion step puts the next attribute into the sorted prefix and leaves the rest of the array alone. |
| AttributeOrder.ShiftAfter | SemanticChecking.ts:43-47 | The attributes that sort after the one being placed move one up, and the gap is left just after the last one that does not. |
| AttributeOrder.Filter | SemanticChecking.ts:59-61 | A filter keeps only attributes of the list whose name is in the group. |
| AttributeOrder.SortKeepsCounts | SemanticChecking.ts:57-66 | Sorting keeps how many attributes fall in a group. |
| AttributeOrder.SortKeepsDistinct | SemanticChecking.ts:40-55 | Sorting neither creates nor removes a shared name. |
| AttributeOrder.AtMostOneOfName | SemanticChecking.ts:49-54 | With distinct names, at most one attribute has a given name. |
| AttributeOrder.LexLess | SemanticChecking.ts:44-46 | JavaScript's `<` on strings. LexIrreflexive, LexTransitive, LexTotal and LexAsymmetric prove that it is a strict total order. |
| AttributeOrder.NameLe | SemanticChecking.ts:43-47 | The sort comparator as "not after". NameLeTransitive proves that it is transitive. |
| AttributeOrder.Insert | SemanticChecking.ts:43-47 | One insertion step of the stable sort. InsertAt, InsertSorted and InsertMultiset state it. |
| AttributeOrder.SortByName | SemanticChecking.ts:43-47 | `attribs.sort` by name, as a stable insertion sort. SortSorted and SortPermutes prove that it sorts and permutes, and SortInPlace proves that the array sort gives it. |
| Checking.AndThen | SemanticChecking.ts:166-186 | Checks run in sequence pass exactly when both pass, and the error is the first one raised. |
| Checking.NamesOf | SemanticChecking.ts:14-16 | The names of the attributes, in order. |
| Checking.FilterEmpty | SemanticChecking.ts:59-62 | The filter is empty exactly when no attribute is in the group. |
| Checking.FilterAtMostOne | SemanticChecking.ts:59-62 | The filter holds at most one attribute exactly when no two are in the group. |
| Checking.SortKeepsGroups | SemanticChecking.ts:43-66 | Sorting does not change whether a group is empty or has at most one attribute. |
| Checking.Customs | SemanticChecking.ts:19-21 | The custom attributes are attributes of the list, and only custom ones. |
| Checking.CheckNameIff | SemanticChecking.ts:18-38 | The name check passes exactly when there is one custom attribute and it has no value. |
| Checking.NoNameReported | SemanticChecking.ts:23-26 | Without a custom attribute the check fails with "Question has no name" at the start token. |
| Checking.DuplicateScanIff | SemanticChecking.ts:49-54 | On a sorted list, the neighbour scan finds a duplicate exactly when two attributes share a name. |
| Checking.CheckDuplicates | SemanticChecking.ts:40-55 | Sorts the array by name in place, then fails exactly when two attributes share a name. |
| Checking.ScanNeighbours | SemanticChecking.ts:49-54 | The loop gives the neighbour scan's result. |
| Checking.SameKindIff | SemanticChecking.ts:57-66 | The group check passes exactly when at most one attribute is in the group. |
| Checking.QuestionType | SemanticChecking.ts:101-109 | There is a type exactly when some attribute names a question type, and it is a question type. |
| Checking.QuestionTypeLast | SemanticChecking.ts:104-108 | The type found is the name of an attribute with no type attribute after it: the last one wins. |
| Checking.FindQuestionType | SemanticChecking.ts:101-111 | The loop finds the last type attribute, or fails with "You need to specify questiont type" when there is none. |
| Checking.FirstIn | SemanticChecking.ts:116-119 | The first attribute in the group, or none exactly when the group is empty. |
| Checking.FirstRowWith | SemanticChecking.ts:85-93 | The first row that carries the attribute, or none exactly when no row does. |
| Checking.OneTypeName | SemanticChecking.ts:76-78 | When at most one attribute names a type, it is the only one. |
| Checking.TypeOfSorted | SemanticChecking.ts:101-108 | With one type attribute, the type found after sorting is that attribute's name. |
| Checking.InappropriateIff | SemanticChecking.ts:113-121 | The check passes exactly when the type is not listed or no forbidden attribute is present. |
| Checking.RowsRelatedIff | SemanticChecking.ts:123-132 | Number and text questions pass exactly when they have no rows and no row-order attribute. |
| Checking.ColumnsRelatedIff | SemanticChecking.ts:134-142 | Number, text and the two choice types pass exactly when they have no columns and no column-order attribute. |
| Checking.XorAllIff | SemanticChecking.ts:80-99 | Matrix questions pass exactly when no row carries "xor" or "all". |
| Checking.TypeRulesIff | SemanticChecking.ts:123-150 | The type-dependent checks pass exactly when the per-type rules hold. |
| Checking.NoRowChecks | SemanticChecking.ts:123-146 | Number and text questions have no rows, no row order and no selection bounds. |
| Checking.NoColumnChecks | SemanticChecking.ts:134-142 | Questions that are not matrices have no columns and no column order. |
| Checking.ChoiceChecks | SemanticChecking.ts:148-150 | Choice and matrix questions have no value bounds. |
| Checking.TypedChecksIff | SemanticChecking.ts:173-177 | With at most one type attribute, the type-dependent checks pass exactly when there is a type and its rules hold. |
| Checking.SortedScanIff | SemanticChecking.ts:40-55 | Sorting then scanning finds a duplicate exactly when there is one in the original list. |
| Checking.SortedSameKindIff | SemanticChecking.ts:169-172 | A group check after the sort passes exactly when the original list has at most one attribute in the group. |
| Checking.CheckQuestionIff | SemanticChecking.ts:166-178 | The question checks pass exactly when the question obeys the rules: one valueless name, no duplicate names, one type, exclusive groups, and the per-type rules. |
| Checking.FirstForeign | SemanticChecking.ts:156-164 | The first non-custom attribute not allowed on an option, or none exactly when all are allowed. |
| Checking.CheckOptionIff | SemanticChecking.ts:180-185 | The option checks pass exactly when the option has one valueless name, only allowed built-in attributes, distinct names, and not both "xor" and "all". |
| Checking.IndexOf | SemanticChecking.ts:204 | The first index of a character of the set, or none exactly when there is none. |
| Checking.SignedDigitsAreIntegers | SemanticChecking.ts:204 | An optionally signed run of digits reads as an integer. |
| Checking.DecimalFraction | SemanticChecking.ts:204 | Digits, a point and digits read as their exact decimal value. |
| Checking.FractionValue | SemanticChecking.ts:204 | Digits, a point and digits ending in a non-zero digit convert to a mantissa not divisible by ten, with one negative power of ten per fraction digit. |
| Checking.FractionIsNotInteger | SemanticChecking.ts:204 | A decimal whose fraction ends in a non-zero digit is not an integer, so "2.5" is refused as a bound. |
| Checking.CheckValueIff | SemanticChecking.ts:188-214 | The value check passes exactly when each attribute kind's value rule holds. |
| Checking.CheckValuePosition | SemanticChecking.ts:196-209 | Order attributes report at their end token, bound attributes at their start token. |
| Checking.SortOpt | SemanticChecking.ts:180-185 | After the first walk, an option is unchanged except that its attributes are sorted by name. |
| Checking.SortAll | SemanticChecking.ts:223 | After the first walk, every component has its question and option attributes sorted. |
| Checking.SortKeepsAll | SemanticChecking.ts:43-47 | Whether every attribute passes a test does not depend on their order. |
| Checking.AttrWalks | SemanticChecking.ts:188-214 | An attribute passes the structure walk exactly when its value is complete, and the value walk exactly when its value fits its attribute. |
| Checking.AttrsWalk | SemanticChecking.ts:223-224 | A list of attributes passes both walks, the second one sorted, exactly when each attribute is ok. |
| Checking.OptWalks | SemanticChecking.ts:180-185 | An option passes both walks exactly when it is ok. |
| Checking.OptsWalk | SemanticChecking.ts:223-224 | A list of options passes both walks exactly when each option is ok. |
| Checking.QuestionStructure | SemanticChecking.ts:166-178 | A question passes the structure walk exactly when it obeys the question rules and everything below it passes. |
| Checking.QuestionValue | SemanticChecking.ts:188-214 | A question passes the value walk exactly when everything below it passes. |
| Checking.QuestionWalks | SemanticChecking.ts:223-224 | A question passes both walks exactly when it is well formed. |
| Checking.ComponentWalks | SemanticChecking.ts:223-224 | Any component passes both walks exactly when it is well formed. |
| Checking.SemanticCheckIff | SemanticChecking.ts:223-224 | The whole check passes exactly when every component is well formed: questions and options obey their rules, every attribute value fits its attribute, and, in the repaired tree whose interlude statements are walked, no declaration lacks an initialiser. |
| Checking.CheckName | SemanticChecking.ts:18-38 | `checkName`. CheckNameIff and NoNameReported state it. |
| Checking.DuplicateScan | SemanticChecking.ts:49-54 | The neighbour scan of `checkDuplicates`. DuplicateScanIff proves that on a sorted list it fails exactly when two attributes share a name. |
| Checking.SameKind | SemanticChecking.ts:57-66 | `checkSameKindUtil`. SameKindIff proves that it passes exactly when at most one attribute is in the group. |
| Checking.Inappropriate | SemanticChecking.ts:113-121 | `checkInAppropriateAttributes`. InappropriateIff states when it passes. |
| Checking.RowsRelated | SemanticChecking.ts:123-132 | `checkIfRowsRelatedApply`. RowsRelatedIff states when it passes. |
| Checking.ColumnsRelated | SemanticChecking.ts:134-142 | `checkIfColumnsRelatedApply`, including the fault when there are columns but no rows. ColumnsRelatedIff states when it passes. |
| Checking.XorAllOnOptions | SemanticChecking.ts:80-99 | `checkXorAllOnOptions`. XorAllIff proves that matrix questions pass exactly when no row carries "xor" or "all". |
| Checking.CheckQuestion | SemanticChecking.ts:166-178 | `checkQuestionStructure` on a question, with the checks after `checkDuplicates` seeing the attributes sorted. CheckQuestionIff states when it passes. |
| Checking.ApplyToOption | SemanticChecking.ts:156-164 | `checkIfAttribApplyToOption`. FirstForeign and CheckOptionIff state it. |
| Checking.CheckOption | SemanticChecking.ts:180-185 | `checkQuestionStructure` on a row or column. CheckOptionIff states when it passes. |
| Checking.ToNumeric | SemanticChecking.ts:204 | `+value` on exact values. DecimalFraction proves that digits, a point and digits read as their exact decimal value. |
| Checking.IsIntegerText | SemanticChecking.ts:204 | `Number.isInteger(+value)` on exact values. SignedDigitsAreIntegers and FractionIsNotInteger state it. |
| Checking.CheckValue | SemanticChecking.ts:188-217 | `checkAttributeValue`. CheckValueIff and CheckValuePosition state it. |
| Checking.StructureCallback | SemanticChecking.ts:166-186 | `checkQuestionStructure` as the first walk's callback. QuestionStructure and OptWalks state it. |
| Checking.ValueCallback | SemanticChecking.ts:188-217 | `checkAttributeValue` as the second walk's callback. AttrWalks and QuestionValue state it. |
| Checking.SemanticCheck | SemanticChecking.ts:223-224 | `SemanticChecking(root)`: the structure walk, then the value walk. SemanticCheckIff states when it passes. |

## Left out

- Input and output are not modelled. The tokenizer reads a given string and the parser a given token sequence. The parser's `input` closure is a sequence of tokens ending in eof, which is what the tokenizer keeps returning once the text is used up.
- `read_num`: `parseFloat` and `toString` are not modelled. The token keeps the digit-and-dot lexeme, because floating point is outside the model.
- Checking.IsIntegerText: `Number.isInteger(+value)` is modelled on exact values. It covers the decimal, `Infinity`, `0x`/`0o`/`0b` and exponent forms of ECMAScript's string-to-number conversion, but has no rounding to doubles, because floating point is outside the model.
- `makePredicate` builds and compiles JavaScript source. Only its meaning is kept: membership in the word list.
- `Map` and its prototype keys: only `Map.get` is modelled, as a Dafny map, with a missing key giving `undefined`.
- `JS_Parse_Error` and its `toString` are presentation. An error is the value `ParseError(message, line, pos)`.
- The "not yet implemented" branches (an embedded expression as an attribute value or as question text) are runtime faults. Nothing is invented for them.
- `peek` in the parser is modelled and proved, but no production calls it, as in the source.
- The source's JavaScript closures (`walkTemplate`, the per-variant walkers, `read_while` with a predicate) are inlined into their callers.
- Node dispatch by class name: every node the parser builds has a case in the walker's switch. So the source's silent skip of an unlisted class (such as `AST_PropAccess` or `AST_Call`, which the parser never builds) has no counterpart.
- `ScopedSymbol.resolve` is the member table's `Resolve`, whose enclosing scope is the defining scope fixed at construction.
- Parser.ts writes `TokenType.KW_Cmd_AL`, which Tree.ts does not define. The model uses `KW_Call_AL`, the kind the tokenizer gives call words.
- Parser.ts builds `AST_Dot`, `AST_BuiltInCmdCall`, `AST_Evaluate`, `AST_Do` and `AST_Root`, which Tree.ts does not define. The model defines them with the fields the parser passes.
- Text is a Dafny `string`, a sequence of Unicode characters. The tokenizer indexes UTF-16 code units (`charAt`, `charCodeAt`, `length`, Tokenizer.ts:72-85). Positions in the model count characters, not code units, so they agree with the source only on text inside the Basic Multilingual Plane. After a character outside it, such as an emoji, the source's `pos`, `tokPos` and every error position are one higher per such character. "Unexpected character" also names a lone surrogate in the source, where the model names the whole character.
- Token types: the tokenizer writes a string tag into each token (AST_Token.ts:7, Tokenizer.ts:10-11, for example "eof"), while the parser compares that tag with the numeric `TokenType` enum (Parser.ts:26, 30 and 563). As written, `is()` and `isOfAnyType()` are therefore always false and the loop of `parse()` never sees eof, so no input parses: it stops with an error or never ends. The model repairs this by giving tokens one kind, `Tree.TokenKind`, that the tokenizer writes and the parser reads.
- `AST_Interlude` and `AST_Assign` are called with one argument fewer than their constructors take. The model gives each field the value the call evidently means, and keeps the rule that the assign operator is always "=". This repair changes what the walker reaches:
  - As written, `new AST_Interlude(start, stmts, prev())` (Parser.ts:557, Tree.ts:194-197) puts the statements in `attributes` and the closing token in `body`. `walkInterlude` (TreeWalker.ts:36-42) then iterates over that token: a native `for ... of` throws a TypeError on every interlude, and a loop compiled for ES5 runs zero times. Either way no statement of an interlude is walked. In the model the walker visits every statement of an interlude.
  - As written, `new AST_Assign(start, left, expr_ops(), prev())` (Parser.ts:286, Tree.ts:343-347) stores a token as the right-hand side, and `_walk` has no case for a token (TreeWalker.ts:118-181), so an assignment's right-hand side is never walked. In the model it is.
  - Walking.MissingInitFaults, Walking.RunWalkNode and Checking.SemanticCheckIff (its "no declaration lacks an initialiser" part) are properties of the repaired tree. Declarations occur only inside interludes, so as written the walker never reaches one, and the fault on a declaration without an initialiser cannot happen.
- Where the source never terminates, the model returns the named outcome `Diverges`:
  - `read_string` at the end of the input;
  - `statement()` falling out of its switch inside `interlude()`;
  - `parse()` on a token that starts no component.
- A runtime TypeError or ReferenceError is a `Fault`:
  - `handle_dot` at the end of the input;
  - a final backslash in a string;
  - the walker on a declaration without an initialiser, in the repaired tree described above;
  - "cannot have columns" with no rows;
  - `s_error`, which is not defined.
- Several productions are split into more than one method, for example the loop and the token that ends it. Each part is proved against the same grammar function as the whole.
- Walking.WalkRoot: the first walk is modelled with the attributes in the order they were written. In the source, `checkDuplicates` sorts a question's attributes in its pre-callback, before the walker reaches them. Checking.SortAll and Checking.AttrsWalk account for this: the structure checks on attributes do not depend on their order.
- Consequences of the source as written. The model keeps each of them and does not repair it:
  - Attribute values: attribute mode gives "=" as punctuation (Tokenizer.ts:313), while `attribute()` takes a value only after an Operator "=" (Parser.ts:300). So `<<q1 hide="1">>` reads `hide` without a value, and the next `attribute()` fails with "SyntaxError: Invalid attribute name =" (Lexing.AttrStepNoOperator, Lexing.AttrEqualsIsPunc, Grammar.PuncEqualsRefused, Grammar.AttrsWithoutOperator). As a result, the value checks of Checking.CheckValue, which Checking.CheckValueIff states, see a value only in trees not built from text. From text, a bound attribute always fails "needs to have a string or a simple expression as value", and `data` always faults.
  - "answer" and "for" are identifiers (LexicalRules.UnlistedWords), while `_answer_has` matches them as keywords (Parser.ts:182-183). A statement starting with "answer" is therefore read as an expression on the symbol `answer`, and no answer test is built from text.
  - "do" is not a call word (LexicalRules.UnlistedWords), so the `do` case of `statement()` (Parser.ts:517-518, 493-498) is never reached from text.
  - "end" is an identifier, not the punctuation "end" that `_condition_set` waits for (Parser.ts:461). The condition loop therefore reads "end" as one more condition and goes on.
  - "col" is not an attribute keyword (LexicalRules.UnlistedAttribute). So `[r1 col]` carries two custom attributes: the option is a column, and `checkName` fails with "More than one name found".
- `Lexer.Tokenizer.Peek` is a function over the text and is not a separate stateful call.
- AttributeOrder.SortByName is a stable sort, as `Array.prototype.sort` is required to be from ES2019 on. Engines of the source's era, V8 among them, sorted arrays of more than 10 elements unstably. With two attributes of the same name in such a list, the engine's order decides which one's position "Duplicate attributes" reports. The model reports the position the stable order gives.

## Findings

| source | as written | input that shows it | evidently intended | confidence | as-written member | corrected member |
|---|---|---|---|---|---|---|
| Tree.ts:76-81 | `resolve` returns the local lookup when it is `!== null`. `Map.get` of a missing name is `undefined`, so that test always holds and the enclosing scope is never consulted. | A block scope inside a global scope that defines `x`: `resolve("x")` in the block gives `undefined`. | An unknown name is looked up in the enclosing scope, and gives `null` at the outermost scope. | not executed | Scopes.Scope.ResolveAsWrittenMissesEnclosing | Scopes.Scope.ResolveNearest |
