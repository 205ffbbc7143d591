/**
 * The generic tree walker (TreeWalker.ts).
 *
 * The source's walker calls an optional pre-callback on a node, walks the
 * node's children in a fixed order, then calls an optional post-callback.
 * Here the traversal is a pure function returning the ordered trace of visit
 * events, and applying the callbacks is a method that iterates over that
 * trace. Dispatch on the runtime class name becomes a match over the AST
 * datatypes.
 */
module Walking {
  import opened Utils
  import opened Tree

  /** The node a callback is handed. */
  datatype Visit =
    | VComponent(c: Component)
    | VOption(o: Opt)
    | VAttribute(a: Attr)
    | VNode(n: Node)

  datatype Event =
    | Pre(v: Visit)
    | Post(v: Visit)
    /** the walker dereferenced a null child of this node and threw */
    | Threw(v: Visit)

  /** A trace that ended in a fault. */
  predicate Faulted(t: seq<Event>)
  {
    |t| > 0 && t[|t| - 1].Threw?
  }

  /** Running `b` after `a`, unless `a` threw. */
  function Then(a: seq<Event>, b: seq<Event>): seq<Event>
  {
    if Faulted(a) then a else a + b
  }

  /** `walkTemplate`: pre, the children, then post unless a child threw. */
  function Around(v: Visit, inner: seq<Event>): seq<Event>
  {
    [Pre(v)] + inner + (if Faulted(inner) then [] else [Post(v)])
  }

  /** `_walk` on a logic-language node or a text fragment (TreeWalker.ts:118-182). */
  function WalkNode(n: Node): seq<Event>
    decreases n, 1
  {
    Around(VNode(n), WalkChildren(n))
  }

  /** The children a node's case in `_walk` visits, in order. */
  function WalkChildren(n: Node): seq<Event>
    decreases n, 0
  {
    match n
    case SimpleStatement(_, body, _) => WalkNode(body)
    case BlockStatement(_, stmts, _) => WalkNodes(stmts)
    case ConditionSetDef(_, _, conditions, _) => WalkNodes(conditions)
    case ActionDef(_, _, action, _) => WalkNode(action)
    case RuleDef(_, _, conditions, action, _) => Then(WalkNodes(conditions), WalkNode(action))
    case SymbolDec(_, _, init, _) =>
      // `_walk(node.init)` runs even when init is null, and `null.constructor` throws
      if init.Some? then WalkNode(init.value) else [Threw(VNode(n))]
    case BuiltInCmdCall(_, _, args, _) => WalkNodes(args)
    case Evaluate(_, target, _) => WalkNode(target)
    case Do(_, target, _) => WalkNode(target)
    case HasAnswer(_, question, answers, _) => Then(WalkNode(question), WalkNodes(answers))
    case Binary(_, left, _, right, _) => Then(WalkNode(left), WalkNode(right))
    case Assign(_, left, right, _) => Then(WalkNode(left), WalkNode(right))
    case Dot(_, container, _, _) => WalkNode(container)
    case SymbolRef(_, _, _) => []
    case Str(_, _, _) => []
    case Number(_, _, _) => []
    case True(_, _) => []
    case False(_, _) => []
    case Undefined(_, _) => []
  }

  /** A `for ... of` loop calling `_walk` on each node in order. */
  function WalkNodes(ns: seq<Node>): seq<Event>
    decreases ns, 2
  {
    if ns == [] then [] else Then(WalkNode(ns[0]), WalkNodes(ns[1..]))
  }

  /** `walkAttrib`: the value is walked only when there is one (TreeWalker.ts:58-60). */
  function WalkAttr(a: Attr): seq<Event>
    decreases a
  {
    Around(VAttribute(a), if a.value.Some? then WalkNode(a.value.value) else [])
  }

  function WalkAttrs(as_: seq<Attr>): seq<Event>
    decreases as_
  {
    if as_ == [] then [] else Then(WalkAttr(as_[0]), WalkAttrs(as_[1..]))
  }

  /** `walkRow` / `walkCol`: texts, then attributes. */
  function WalkOpt(o: Opt): seq<Event>
    decreases o
  {
    Around(VOption(o), Then(WalkNodes(o.texts), WalkAttrs(o.attributes)))
  }

  function WalkOpts(os: seq<Opt>): seq<Event>
    decreases os
  {
    if os == [] then [] else Then(WalkOpt(os[0]), WalkOpts(os[1..]))
  }

  /**
   * `walkQuestion`, `walkSection`, `walkInterlude` (TreeWalker.ts:16-41). An
   * interlude's statements are its body, as the parser evidently means them
   * to be.
   */
  function WalkComponent(c: Component): seq<Event>
  {
    var v := VComponent(c);
    match c
    case Question(_, texts, attributes, rows, columns, _) =>
      Around(v, Then(Then(Then(WalkNodes(texts), WalkAttrs(attributes)), WalkOpts(rows)), WalkOpts(columns)))
    case Section(_, attributes, _) => Around(v, WalkAttrs(attributes))
    case Interlude(_, body, _) => Around(v, WalkNodes(body))
  }

  /** The closure `Walker` returns: every survey component in order (TreeWalker.ts:186-190). */
  function WalkRoot(root: seq<Component>): seq<Event>
  {
    if root == [] then [] else Then(WalkComponent(root[0]), WalkRoot(root[1..]))
  }

  // ---------------------------------------------------------------------
  // Well-formedness of traces

  /** A fault can only be the last event of a trace. */
  predicate FaultLast(t: seq<Event>)
  {
    forall k :: 0 <= k < |t| - 1 ==> !t[k].Threw?
  }

  /**
   * Replays a trace against the stack of visits still open (innermost
   * first): a pre event opens a visit, a post event must close the innermost
   * open one, and a fault or a mismatched post gives None.
   */
  function Nest(t: seq<Event>, open: seq<Visit>): Option<seq<Visit>>
    decreases |t|
  {
    if t == [] then Some(open)
    else match t[0]
      case Pre(v) => Nest(t[1..], [v] + open)
      case Post(v) => if open != [] && open[0] == v then Nest(t[1..], open[1..]) else None
      case Threw(_) => None
  }

  /**
   * Events are properly nested: every post event closes the innermost visit
   * still open, and no visit is left open at the end.
   */
  predicate Balanced(t: seq<Event>)
  {
    Nest(t, []) == Some([])
  }

  /** Replaying a concatenation replays the first part, then the second from where it left off. */
  lemma {:induction false} NestAppend(a: seq<Event>, b: seq<Event>, open: seq<Visit>)
    ensures Nest(a + b, open) == if Nest(a, open).Some? then Nest(b, Nest(a, open).value) else None
    decreases |a|
  {
    if a == [] {
      assert a + b == b;
    } else {
      assert (a + b)[0] == a[0] && (a + b)[1..] == a[1..] + b;
      match a[0]
      case Pre(v) => NestAppend(a[1..], b, [v] + open);
      case Post(v) =>
        if open != [] && open[0] == v {
          NestAppend(a[1..], b, open[1..]);
        }
      case Threw(_) =>
    }
  }

  /** Visits opened further out do not change how a trace replays. */
  lemma {:induction false} NestBelow(t: seq<Event>, open: seq<Visit>, rest: seq<Visit>, below: seq<Visit>)
    requires Nest(t, open) == Some(rest)
    ensures Nest(t, open + below) == Some(rest + below)
    decreases |t|
  {
    if t != [] {
      match t[0]
      case Pre(v) =>
        assert [v] + (open + below) == ([v] + open) + below;
        NestBelow(t[1..], [v] + open, rest, below);
      case Post(v) =>
        assert (open + below)[1..] == open[1..] + below;
        NestBelow(t[1..], open[1..], rest, below);
    }
  }

  lemma BalancedAppend(a: seq<Event>, b: seq<Event>)
    requires Balanced(a) && Balanced(b)
    ensures Balanced(a + b)
  {
    NestAppend(a, b, []);
  }

  lemma BalancedAround(v: Visit, inner: seq<Event>)
    requires Balanced(inner) && !Faulted(inner)
    ensures Balanced(Around(v, inner)) && !Faulted(Around(v, inner))
  {
    var t := Around(v, inner);
    assert t[0] == Pre(v) && t[1..] == inner + [Post(v)];
    assert [v] + [] == [v] && [] + [v] == [v];
    NestBelow(inner, [], [], [v]);
    NestAppend(inner, [Post(v)], [v]);
    assert [Post(v)][1..] == [] && [v][1..] == [];
  }

  lemma FaultLastThen(a: seq<Event>, b: seq<Event>)
    requires FaultLast(a) && FaultLast(b)
    ensures FaultLast(Then(a, b))
  {
    if !Faulted(a) {
      forall k | 0 <= k < |a + b| - 1
        ensures !(a + b)[k].Threw?
      {
        if k >= |a| {
          assert (a + b)[k] == b[k - |a|];
        }
      }
    }
  }

  lemma FaultLastAround(v: Visit, inner: seq<Event>)
    requires FaultLast(inner)
    ensures FaultLast(Around(v, inner))
  {
    var t := Around(v, inner);
    forall k | 0 <= k < |t| - 1
      ensures !t[k].Threw?
    {
      if 1 <= k <= |inner| {
        assert t[k] == inner[k - 1];
      }
    }
  }

  /**
   * Walking a node yields either a fault as its last and only fault, or a
   * balanced trace: every pre-callback is matched by the post-callback of the
   * same node, after all events of the node's descendants.
   */
  lemma WalkNodeShape(n: Node)
    ensures FaultLast(WalkNode(n))
    ensures !Faulted(WalkNode(n)) ==> Balanced(WalkNode(n))
    ensures |WalkNode(n)| >= 2 && WalkNode(n)[0] == Pre(VNode(n))
    decreases n, 1, 0
  {
    ChildrenShape(n);
    AroundShape(VNode(n), WalkChildren(n));
  }

  lemma {:induction false} ChildrenShape(n: Node)
    ensures FaultLast(WalkChildren(n))
    ensures !Faulted(WalkChildren(n)) ==> Balanced(WalkChildren(n))
    decreases n, 0, 1
  {
    match n
    case SimpleStatement(_, body, _) => WalkNodeShape(body);
    case BlockStatement(_, stmts, _) => WalkNodesShape(stmts);
    case ConditionSetDef(_, _, conditions, _) => WalkNodesShape(conditions);
    case ActionDef(_, _, action, _) => WalkNodeShape(action);
    case SymbolDec(_, _, init, _) =>
      if init.Some? { WalkNodeShape(init.value); }
    case BuiltInCmdCall(_, _, args, _) => WalkNodesShape(args);
    case Evaluate(_, target, _) => WalkNodeShape(target);
    case Do(_, target, _) => WalkNodeShape(target);
    case Dot(_, container, _, _) => WalkNodeShape(container);
    case RuleDef(_, _, _, _, _) => PairChildrenShape(n);
    case HasAnswer(_, _, _, _) => PairChildrenShape(n);
    case Binary(_, _, _, _, _) => PairChildrenShape(n);
    case Assign(_, _, _, _) => PairChildrenShape(n);
    case SymbolRef(_, _, _) =>
    case Str(_, _, _) =>
    case Number(_, _, _) =>
    case True(_, _) =>
    case False(_, _) =>
    case Undefined(_, _) =>
  }

  lemma {:induction false} PairChildrenShape(n: Node)
    requires n.RuleDef? || n.HasAnswer? || n.Binary? || n.Assign?
    ensures FaultLast(WalkChildren(n))
    ensures !Faulted(WalkChildren(n)) ==> Balanced(WalkChildren(n))
    decreases n, 0, 0
  {
    match n
    case RuleDef(_, _, conditions, action, _) =>
      WalkNodesShape(conditions); WalkNodeShape(action);
      ThenShape(WalkNodes(conditions), WalkNode(action));
    case HasAnswer(_, question, answers, _) =>
      WalkNodeShape(question); WalkNodesShape(answers);
      ThenShape(WalkNode(question), WalkNodes(answers));
    case Binary(_, left, _, right, _) =>
      WalkNodeShape(left); WalkNodeShape(right);
      ThenShape(WalkNode(left), WalkNode(right));
    case Assign(_, left, right, _) =>
      WalkNodeShape(left); WalkNodeShape(right);
      ThenShape(WalkNode(left), WalkNode(right));
  }

  lemma {:induction false} WalkNodesShape(ns: seq<Node>)
    ensures FaultLast(WalkNodes(ns))
    ensures !Faulted(WalkNodes(ns)) ==> Balanced(WalkNodes(ns))
    decreases ns, 2, 0
  {
    if ns != [] {
      WalkNodeShape(ns[0]);
      WalkNodesShape(ns[1..]);
      ThenShape(WalkNode(ns[0]), WalkNodes(ns[1..]));
    }
  }

  /** Shape facts are kept by sequencing two walks. */
  lemma ThenShape(a: seq<Event>, b: seq<Event>)
    requires FaultLast(a) && (!Faulted(a) ==> Balanced(a))
    requires FaultLast(b) && (!Faulted(b) ==> Balanced(b))
    ensures FaultLast(Then(a, b)) && (!Faulted(Then(a, b)) ==> Balanced(Then(a, b)))
  {
    FaultLastThen(a, b);
    if !Faulted(a) {
      if !Faulted(b) {
        ThenNoFault(a, b);
        BalancedAppend(a, b);
      } else {
        assert Then(a, b)[|Then(a, b)| - 1] == b[|b| - 1];
      }
    }
  }

  /** Shape facts are kept by wrapping a walk in a node's pre and post events. */
  lemma AroundShape(v: Visit, inner: seq<Event>)
    requires FaultLast(inner) && (!Faulted(inner) ==> Balanced(inner))
    ensures FaultLast(Around(v, inner)) && (!Faulted(Around(v, inner)) ==> Balanced(Around(v, inner)))
    ensures |Around(v, inner)| >= 2 && Around(v, inner)[0] == Pre(v)
  {
    FaultLastAround(v, inner);
    if !Faulted(inner) {
      BalancedAround(v, inner);
    }
  }

  /** Leaves get only their own pre and post events (TreeWalker.ts:116, 173-180). */
  lemma LeafWalk(n: Node)
    requires n.SymbolRef? || n.Str? || n.Number? || n.True? || n.False? || n.Undefined?
    ensures WalkNode(n) == [Pre(VNode(n)), Post(VNode(n))]
  {
  }

  /** An attribute without a value has no child visit (TreeWalker.ts:58-60). */
  lemma ValuelessAttributeWalk(a: Attr)
    requires a.value.None?
    ensures WalkAttr(a) == [Pre(VAttribute(a)), Post(VAttribute(a))]
  {
  }

  /**
   * A declaration without initialiser makes the walker throw right after its
   * pre event. Declarations stand only in interludes, whose statements the
   * walker reaches in the tree the model builds; in the tree Parser.ts:557
   * builds they sit where the walker does not look.
   */
  lemma MissingInitFaults(n: Node)
    requires n.SymbolDec? && n.init.None?
    ensures WalkNode(n) == [Pre(VNode(n)), Threw(VNode(n))]
  {
  }

  /**
   * Binary and assignment nodes: pre, the whole left walk, the whole right
   * walk, post (TreeWalker.ts:103-106, 163-166).
   */
  lemma BinaryWalkOrder(n: Node)
    requires n.Binary? || n.Assign?
    requires !Faulted(WalkNode(n.left)) && !Faulted(WalkNode(n.right))
    ensures WalkNode(n) == [Pre(VNode(n))] + WalkNode(n.left) + WalkNode(n.right) + [Post(VNode(n))]
  {
  }

  /** Sequencing two walks that do not throw is concatenation, and does not throw. */
  lemma ThenNoFault(a: seq<Event>, b: seq<Event>)
    requires !Faulted(a) && !Faulted(b)
    ensures Then(a, b) == a + b && !Faulted(a + b)
  {
    if |b| > 0 {
      assert (a + b)[|a + b| - 1] == b[|b| - 1];
    } else {
      assert a + b == a;
    }
  }

  /**
   * A question's children in order: texts, attributes, rows, columns
   * (TreeWalker.ts:16-27), when none of them throws.
   */
  lemma QuestionWalkOrder(c: Component)
    requires c.Question?
    requires !Faulted(WalkNodes(c.texts)) && !Faulted(WalkAttrs(c.attributes))
    requires !Faulted(WalkOpts(c.rows)) && !Faulted(WalkOpts(c.columns))
    ensures WalkComponent(c) == [Pre(VComponent(c))]
                                + (WalkNodes(c.texts) + WalkAttrs(c.attributes) + WalkOpts(c.rows) + WalkOpts(c.columns))
                                + [Post(VComponent(c))]
  {
    var a, at, r, co := WalkNodes(c.texts), WalkAttrs(c.attributes), WalkOpts(c.rows), WalkOpts(c.columns);
    ThenChain(a, at, r, co);
  }

  /** A row or a column: pre, its texts, its attributes, post (TreeWalker.ts:44-56). */
  lemma OptionWalkOrder(o: Opt)
    requires !Faulted(WalkNodes(o.texts)) && !Faulted(WalkAttrs(o.attributes))
    ensures WalkOpt(o) == [Pre(VOption(o))] + WalkNodes(o.texts) + WalkAttrs(o.attributes) + [Post(VOption(o))]
  {
    ThenNoFault(WalkNodes(o.texts), WalkAttrs(o.attributes));
  }

  /** A section visits its attributes and nothing else (TreeWalker.ts:29-34). */
  lemma SectionWalkOrder(c: Component)
    requires c.Section? && !Faulted(WalkAttrs(c.attributes))
    ensures WalkComponent(c) == [Pre(VComponent(c))] + WalkAttrs(c.attributes) + [Post(VComponent(c))]
  {
  }

  /** A rule visits its conditions, then its action (TreeWalker.ts:81-85). */
  lemma RuleWalkOrder(n: Node)
    requires n.RuleDef? && !Faulted(WalkNodes(n.conditions)) && !Faulted(WalkNode(n.action))
    ensures WalkNode(n) == [Pre(VNode(n))] + WalkNodes(n.conditions) + WalkNode(n.action) + [Post(VNode(n))]
  {
    ThenNoFault(WalkNodes(n.conditions), WalkNode(n.action));
  }

  /** An answer test visits its question, then its answers (TreeWalker.ts:96-101). */
  lemma AnswerWalkOrder(n: Node)
    requires n.HasAnswer? && !Faulted(WalkNode(n.question)) && !Faulted(WalkNodes(n.answers))
    ensures WalkNode(n) == [Pre(VNode(n))] + WalkNode(n.question) + WalkNodes(n.answers) + [Post(VNode(n))]
  {
    ThenNoFault(WalkNode(n.question), WalkNodes(n.answers));
  }

  /** Three sequencings of walks that do not throw are one concatenation that does not throw. */
  lemma ThenChain(a: seq<Event>, b: seq<Event>, c: seq<Event>, d: seq<Event>)
    requires !Faulted(a) && !Faulted(b) && !Faulted(c) && !Faulted(d)
    ensures Then(Then(Then(a, b), c), d) == a + b + c + d && !Faulted(a + b + c + d)
  {
    ThenNoFault(a, b);
    ThenNoFault(a + b, c);
    ThenNoFault(a + b + c, d);
  }

  lemma ThenAssoc(x: seq<Event>, y: seq<Event>, z: seq<Event>)
    ensures Then(x, Then(y, z)) == Then(Then(x, y), z)
  {
    if !Faulted(x) {
      if Faulted(y) {
        assert (x + y)[|x + y| - 1] == y[|y| - 1];
      } else if |y| == 0 {
        assert x + y == x;
      } else {
        assert (x + y)[|x + y| - 1] == y[|y| - 1];
        assert x + (y + z) == (x + y) + z;
      }
    }
  }

  /**
   * The root walk visits the components in list order: walking a
   * concatenation is walking the first part, then (unless it threw) the second.
   */
  lemma {:induction false} WalkRootAppend(a: seq<Component>, b: seq<Component>)
    ensures WalkRoot(a + b) == Then(WalkRoot(a), WalkRoot(b))
  {
    if a == [] {
      assert a + b == b;
    } else {
      assert (a + b)[0] == a[0] && (a + b)[1..] == a[1..] + b;
      WalkRootAppend(a[1..], b);
      ThenAssoc(WalkComponent(a[0]), WalkRoot(a[1..]), WalkRoot(b));
    }
  }

  // ---------------------------------------------------------------------
  // Applying the callbacks

  /**
   * What running the walker does: the callbacks are called event by event
   * (a missing callback is skipped), and the first one that throws, or the
   * walker's own fault, ends the run.
   */
  function Run(t: seq<Event>, pre: Option<Visit -> Outcome>, post: Option<Visit -> Outcome>): Outcome
  {
    if t == [] then Pass
    else
      var o := Step(t[0], pre, post);
      if o.Fail? then o else Run(t[1..], pre, post)
  }

  function Step(e: Event, pre: Option<Visit -> Outcome>, post: Option<Visit -> Outcome>): Outcome
  {
    match e
    case Pre(v) => if pre.Some? then pre.value(v) else Pass
    case Post(v) => if post.Some? then post.value(v) else Pass
    case Threw(_) => Fail(Fault("TypeError: Cannot read property 'constructor' of null"))
  }

  /** Run passes exactly when every event's callback passes. */
  lemma {:induction false} RunPassIff(t: seq<Event>, pre: Option<Visit -> Outcome>, post: Option<Visit -> Outcome>)
    ensures Run(t, pre, post).Pass? <==> forall k :: 0 <= k < |t| ==> Step(t[k], pre, post).Pass?
  {
    if t != [] {
      RunPassIff(t[1..], pre, post);
      assert forall k :: 1 <= k < |t| ==> t[1..][k - 1] == t[k];
    }
  }

  /** A trace of two parts passes exactly when both parts do. */
  lemma RunAppend(a: seq<Event>, b: seq<Event>, pre: Option<Visit -> Outcome>, post: Option<Visit -> Outcome>)
    ensures Run(a + b, pre, post).Pass? <==> Run(a, pre, post).Pass? && Run(b, pre, post).Pass?
  {
    RunPassIff(a + b, pre, post);
    RunPassIff(a, pre, post);
    RunPassIff(b, pre, post);
    assert forall k :: 0 <= k < |a| ==> (a + b)[k] == a[k];
    assert forall k :: 0 <= k < |b| ==> (a + b)[|a| + k] == b[k];
  }

  /** A walk that faults never passes, so sequencing two walks passes iff both do. */
  lemma RunThen(a: seq<Event>, b: seq<Event>, pre: Option<Visit -> Outcome>, post: Option<Visit -> Outcome>)
    ensures Run(Then(a, b), pre, post).Pass? <==> Run(a, pre, post).Pass? && Run(b, pre, post).Pass?
  {
    if Faulted(a) {
      RunPassIff(a, pre, post);
      assert Step(a[|a| - 1], pre, post).Fail?;
    } else {
      RunAppend(a, b, pre, post);
    }
  }

  /** Visiting a node passes iff both its callbacks and its children's walk pass. */
  lemma RunAround(v: Visit, inner: seq<Event>, pre: Option<Visit -> Outcome>, post: Option<Visit -> Outcome>)
    ensures Run(Around(v, inner), pre, post).Pass? <==>
            Step(Pre(v), pre, post).Pass? && Run(inner, pre, post).Pass? && Step(Post(v), pre, post).Pass?
  {
    var tail := if Faulted(inner) then [] else [Post(v)];
    RunAppend([Pre(v)] + inner, tail, pre, post);
    RunAppend([Pre(v)], inner, pre, post);
    if Faulted(inner) {
      RunPassIff(inner, pre, post);
      assert Step(inner[|inner| - 1], pre, post).Fail?;
    }
  }

  /** No declaration in the node lacks an initialiser: the walker never throws on it. */
  predicate Complete(n: Node)
    decreases n, 1
  {
    match n
    case SimpleStatement(_, body, _) => Complete(body)
    case BlockStatement(_, stmts, _) => AllComplete(stmts)
    case ConditionSetDef(_, _, conditions, _) => AllComplete(conditions)
    case ActionDef(_, _, action, _) => Complete(action)
    case RuleDef(_, _, conditions, action, _) =>
      AllComplete(conditions) && Complete(action)
    case SymbolDec(_, _, init, _) => init.Some? && Complete(init.value)
    case BuiltInCmdCall(_, _, args, _) => AllComplete(args)
    case Evaluate(_, target, _) => Complete(target)
    case Do(_, target, _) => Complete(target)
    case HasAnswer(_, question, answers, _) =>
      Complete(question) && AllComplete(answers)
    case Binary(_, left, _, right, _) => Complete(left) && Complete(right)
    case Assign(_, left, right, _) => Complete(left) && Complete(right)
    case Dot(_, container, _, _) => Complete(container)
    case SymbolRef(_, _, _) => true
    case Str(_, _, _) => true
    case Number(_, _, _) => true
    case True(_, _) => true
    case False(_, _) => true
    case Undefined(_, _) => true
  }

  /** Every node of the list is complete. */
  predicate AllComplete(ns: seq<Node>)
    decreases ns, 0
  {
    ns == [] || (Complete(ns[0]) && AllComplete(ns[1..]))
  }

  /** A callback that accepts every logic-language node. */
  ghost predicate IgnoresNodes(cb: Option<Visit -> Outcome>)
  {
    cb.Some? ==> forall n: Node :: cb.value(VNode(n)).Pass?
  }

  /**
   * With callbacks that accept every node, walking a node passes exactly
   * when none of its declarations lacks an initialiser.
   */
  lemma RunWalkNode(n: Node, pre: Option<Visit -> Outcome>, post: Option<Visit -> Outcome>)
    requires IgnoresNodes(pre) && IgnoresNodes(post)
    ensures Run(WalkNode(n), pre, post).Pass? <==> Complete(n)
    decreases n, 1, 0
  {
    var v := VNode(n);
    assert Step(Pre(v), pre, post).Pass? && Step(Post(v), pre, post).Pass?;
    RunAround(v, WalkChildren(n), pre, post);
    RunChildren(n, pre, post);
  }

  lemma RunChildren(n: Node, pre: Option<Visit -> Outcome>, post: Option<Visit -> Outcome>)
    requires IgnoresNodes(pre) && IgnoresNodes(post)
    ensures Run(WalkChildren(n), pre, post).Pass? <==> Complete(n)
    decreases n, 0, 1
  {
    if n.BlockStatement? || n.ConditionSetDef? || n.BuiltInCmdCall? {
      RunListChildren(n, pre, post);
    } else if n.RuleDef? || n.HasAnswer? || n.Binary? || n.Assign? {
      RunPairChildren(n, pre, post);
    } else if !(n.SymbolRef? || n.Str? || n.Number? || n.True? || n.False? || n.Undefined?) {
      RunOneChild(n, pre, post);
    }
  }

  /** The cases that walk at most one node. */
  lemma {:induction false} RunOneChild(n: Node, pre: Option<Visit -> Outcome>, post: Option<Visit -> Outcome>)
    requires n.SimpleStatement? || n.ActionDef? || n.SymbolDec? || n.Evaluate? || n.Do? || n.Dot?
    requires IgnoresNodes(pre) && IgnoresNodes(post)
    ensures Run(WalkChildren(n), pre, post).Pass? <==> Complete(n)
    decreases n, 0, 0
  {
    match n {
      case SimpleStatement(_, body, _) => RunWalkNode(body, pre, post);
      case ActionDef(_, _, action, _) => RunWalkNode(action, pre, post);
      case SymbolDec(_, _, init, _) =>
        if init.Some? {
          RunWalkNode(init.value, pre, post);
        }
      case Evaluate(_, target, _) => RunWalkNode(target, pre, post);
      case Do(_, target, _) => RunWalkNode(target, pre, post);
      case Dot(_, container, _, _) => RunWalkNode(container, pre, post);
    }
  }

  /** The cases that walk a list of nodes. */
  lemma {:induction false} RunListChildren(n: Node, pre: Option<Visit -> Outcome>, post: Option<Visit -> Outcome>)
    requires n.BlockStatement? || n.ConditionSetDef? || n.BuiltInCmdCall?
    requires IgnoresNodes(pre) && IgnoresNodes(post)
    ensures Run(WalkChildren(n), pre, post).Pass? <==> Complete(n)
    decreases n, 0, 0
  {
    match n {
      case BlockStatement(_, stmts, _) => RunWalkNodes(stmts, pre, post);
      case ConditionSetDef(_, _, conditions, _) => RunWalkNodes(conditions, pre, post);
      case BuiltInCmdCall(_, _, args, _) => RunWalkNodes(args, pre, post);
    }
  }

  /** The cases that walk two parts one after the other. */
  lemma {:induction false} RunPairChildren(n: Node, pre: Option<Visit -> Outcome>, post: Option<Visit -> Outcome>)
    requires n.RuleDef? || n.HasAnswer? || n.Binary? || n.Assign?
    requires IgnoresNodes(pre) && IgnoresNodes(post)
    ensures Run(WalkChildren(n), pre, post).Pass? <==> Complete(n)
    decreases n, 0, 0
  {
    match n {
      case RuleDef(_, _, conditions, action, _) =>
        RunThen(WalkNodes(conditions), WalkNode(action), pre, post);
        RunWalkNodes(conditions, pre, post);
        RunWalkNode(action, pre, post);
      case HasAnswer(_, question, answers, _) =>
        RunThen(WalkNode(question), WalkNodes(answers), pre, post);
        RunWalkNode(question, pre, post);
        RunWalkNodes(answers, pre, post);
      case Binary(_, left, _, right, _) =>
        RunThen(WalkNode(left), WalkNode(right), pre, post);
        RunWalkNode(left, pre, post);
        RunWalkNode(right, pre, post);
      case Assign(_, left, right, _) =>
        RunThen(WalkNode(left), WalkNode(right), pre, post);
        RunWalkNode(left, pre, post);
        RunWalkNode(right, pre, post);
    }
  }

  lemma {:induction false} RunWalkNodes(ns: seq<Node>, pre: Option<Visit -> Outcome>, post: Option<Visit -> Outcome>)
    requires IgnoresNodes(pre) && IgnoresNodes(post)
    ensures Run(WalkNodes(ns), pre, post).Pass? <==> AllComplete(ns)
    decreases ns, 2, 0
  {
    if ns != [] {
      RunThen(WalkNode(ns[0]), WalkNodes(ns[1..]), pre, post);
      RunWalkNode(ns[0], pre, post);
      RunWalkNodes(ns[1..], pre, post);
    }
  }

  /** An attribute passes: its callback accepts it and its value is complete. */
  ghost predicate AttrPasses(a: Attr, pre: Option<Visit -> Outcome>)
  {
    (pre.Some? ==> pre.value(VAttribute(a)).Pass?) && (a.value.Some? ==> Complete(a.value.value))
  }

  lemma RunWalkAttr(a: Attr, pre: Option<Visit -> Outcome>)
    requires IgnoresNodes(pre)
    ensures Run(WalkAttr(a), pre, None).Pass? <==> AttrPasses(a, pre)
  {
    var inner := if a.value.Some? then WalkNode(a.value.value) else [];
    RunAround(VAttribute(a), inner, pre, None);
    if a.value.Some? {
      RunWalkNode(a.value.value, pre, None);
    }
  }

  lemma {:induction false} RunWalkAttrs(as_: seq<Attr>, pre: Option<Visit -> Outcome>)
    requires IgnoresNodes(pre)
    ensures Run(WalkAttrs(as_), pre, None).Pass? <==> AllAttrsPass(as_, pre)
    decreases |as_|
  {
    if as_ != [] {
      RunThen(WalkAttr(as_[0]), WalkAttrs(as_[1..]), pre, None);
      RunWalkAttr(as_[0], pre);
      RunWalkAttrs(as_[1..], pre);
      assert forall k :: 1 <= k < |as_| ==> as_[1..][k - 1] == as_[k];
    }
  }

  /** Every attribute of the list passes. */
  ghost predicate AllAttrsPass(as_: seq<Attr>, pre: Option<Visit -> Outcome>)
  {
    forall k :: 0 <= k < |as_| ==> AttrPasses(as_[k], pre)
  }

  /** An option passes: its callback accepts it, its texts and its attributes pass. */
  ghost predicate OptPasses(o: Opt, pre: Option<Visit -> Outcome>)
  {
    (pre.Some? ==> pre.value(VOption(o)).Pass?)
    && AllComplete(o.texts)
    && AllAttrsPass(o.attributes, pre)
  }

  lemma RunWalkOpt(o: Opt, pre: Option<Visit -> Outcome>)
    requires IgnoresNodes(pre)
    ensures Run(WalkOpt(o), pre, None).Pass? <==> OptPasses(o, pre)
  {
    RunAround(VOption(o), Then(WalkNodes(o.texts), WalkAttrs(o.attributes)), pre, None);
    RunThen(WalkNodes(o.texts), WalkAttrs(o.attributes), pre, None);
    RunWalkNodes(o.texts, pre, None);
    RunWalkAttrs(o.attributes, pre);
  }

  lemma {:induction false} RunWalkOpts(os: seq<Opt>, pre: Option<Visit -> Outcome>)
    requires IgnoresNodes(pre)
    ensures Run(WalkOpts(os), pre, None).Pass? <==> AllOptsPass(os, pre)
    decreases |os|
  {
    if os != [] {
      RunThen(WalkOpt(os[0]), WalkOpts(os[1..]), pre, None);
      RunWalkOpt(os[0], pre);
      RunWalkOpts(os[1..], pre);
      assert forall k :: 1 <= k < |os| ==> os[1..][k - 1] == os[k];
    }
  }

  /** Every option of the list passes. */
  ghost predicate AllOptsPass(os: seq<Opt>, pre: Option<Visit -> Outcome>)
  {
    forall k :: 0 <= k < |os| ==> OptPasses(os[k], pre)
  }

  /** A component passes: its callback accepts it and everything below it passes. */
  ghost predicate ComponentPasses(c: Component, pre: Option<Visit -> Outcome>)
  {
    (pre.Some? ==> pre.value(VComponent(c)).Pass?)
    && match c
       case Question(_, texts, attributes, rows, columns, _) =>
         AllComplete(texts)
         && AllAttrsPass(attributes, pre) && AllOptsPass(rows, pre) && AllOptsPass(columns, pre)
       case Section(_, attributes, _) =>
         AllAttrsPass(attributes, pre)
       case Interlude(_, body, _) =>
         AllComplete(body)
  }

  lemma RunWalkComponent(c: Component, pre: Option<Visit -> Outcome>)
    requires IgnoresNodes(pre)
    ensures Run(WalkComponent(c), pre, None).Pass? <==> ComponentPasses(c, pre)
  {
    var v := VComponent(c);
    match c {
      case Question(_, texts, attributes, rows, columns, _) =>
        var t1 := Then(WalkNodes(texts), WalkAttrs(attributes));
        var t2 := Then(t1, WalkOpts(rows));
        RunAround(v, Then(t2, WalkOpts(columns)), pre, None);
        RunThen(t2, WalkOpts(columns), pre, None);
        RunThen(t1, WalkOpts(rows), pre, None);
        RunThen(WalkNodes(texts), WalkAttrs(attributes), pre, None);
        RunWalkNodes(texts, pre, None);
        RunWalkAttrs(attributes, pre);
        RunWalkOpts(rows, pre);
        RunWalkOpts(columns, pre);
      case Section(_, attributes, _) =>
        RunAround(v, WalkAttrs(attributes), pre, None);
        RunWalkAttrs(attributes, pre);
      case Interlude(_, body, _) =>
        RunAround(v, WalkNodes(body), pre, None);
        RunWalkNodes(body, pre, None);
    }
  }

  /**
   * The walker's run over a whole survey passes exactly when every
   * component passes: the callback accepts every component, option and
   * attribute, and no declaration lacks an initialiser.
   */
  lemma {:induction false} RunWalkRoot(root: seq<Component>, pre: Option<Visit -> Outcome>)
    requires IgnoresNodes(pre)
    ensures Run(WalkRoot(root), pre, None).Pass? <==> forall k :: 0 <= k < |root| ==> ComponentPasses(root[k], pre)
    decreases |root|
  {
    if root != [] {
      RunThen(WalkComponent(root[0]), WalkRoot(root[1..]), pre, None);
      RunWalkComponent(root[0], pre);
      RunWalkRoot(root[1..], pre);
      assert forall k :: 1 <= k < |root| ==> root[1..][k - 1] == root[k];
    }
  }

  /**
   * The effectful loop: each event of the trace in order, stopping at the
   * first failure, which is the one with no failure before it.
   */
  method ApplyCallbacks(t: seq<Event>, pre: Option<Visit -> Outcome>, post: Option<Visit -> Outcome>)
    returns (r: Outcome)
    ensures r.Pass? <==> forall k :: 0 <= k < |t| ==> Step(t[k], pre, post).Pass?
    ensures r.Fail? ==> exists k :: 0 <= k < |t| && r == Step(t[k], pre, post)
                                    && forall j :: 0 <= j < k ==> Step(t[j], pre, post).Pass?
    ensures r == Run(t, pre, post)
  {
    var i := 0;
    while i < |t|
      invariant 0 <= i <= |t|
      invariant forall j :: 0 <= j < i ==> Step(t[j], pre, post).Pass?
      invariant Run(t, pre, post) == Run(t[i..], pre, post)
    {
      var o := Step(t[i], pre, post);
      if o.Fail? {
        return o;
      }
      assert t[i..][1..] == t[i + 1..];
      i := i + 1;
    }
    r := Pass;
  }
}
