/**
 * Scopes and symbols (Tree.ts:16-146).
 *
 * `BaseScope` (with its subclasses `GlobalScope`, `InterludeScope`,
 * `BlockScope`) and `ScopedSymbol` both keep a table of symbols and an
 * enclosing scope fixed at construction. Here one class, `Scope`, stands for
 * that table; a scoped symbol (question, row, column) owns one as its member
 * table, created when the symbol is. `define` updates the table and the
 * symbol's `definedInScope` field in place, so both are classes.
 */
module Scopes {
  import opened Utils
  import opened Tree

  /** What a symbol names, with the data each `Symbol` subclass carries. */
  datatype SymbolKind =
    | Variable
    | Rule(conditions: seq<Node>, action: Node)
    | Action(action: Node)
    | ConditionSet(conditions: seq<Node>)
    | QuestionSym
    | RowSym
    | ColumnSym

  /** The subclasses of `ScopedSymbol`. */
  predicate IsScoped(k: SymbolKind)
  {
    k.QuestionSym? || k.RowSym? || k.ColumnSym?
  }

  /**
   * A JavaScript reference as a lookup sees it: `Map.get` of a missing key
   * gives `undefined`, which is not `null`.
   */
  datatype JsRef = JsUndefined | JsNull | Ref(sym: Symbol)

  /** `this.symbols.get(name)` (Utils.ts:52-54). */
  function MapGet(m: map<string, Symbol>, name: string): (r: JsRef)
    ensures r.Ref? <==> name in m
    ensures r.Ref? ==> r.sym == m[name]
    ensures r != JsNull
  {
    match Get(m, name)
    case Some(s) => Ref(s)
    case None => JsUndefined
  }

  class Symbol {
    const name: string
    var definedInScope: Scope?
    const kind: SymbolKind
    /** the `fields` table and enclosing scope of a `ScopedSymbol`; null for the others */
    const members: Scope?

    /** `new Symbol(name, definedInScope)`; a scoped symbol also gets its member table (Tree.ts:107-110). */
    constructor (name: string, definedInScope: Scope?, kind: SymbolKind)
      requires definedInScope != null ==> definedInScope.Chained()
      ensures this.name == name && this.definedInScope == definedInScope && this.kind == kind
      ensures IsScoped(kind) <==> members != null
      ensures members != null ==> fresh(members) && members.symbols == map[]
                                  && members.enclosing == definedInScope && members.Chained()
    {
      this.name := name;
      this.definedInScope := definedInScope;
      this.kind := kind;
      if IsScoped(kind) {
        members := new Scope(definedInScope);
      } else {
        members := null;
      }
    }

    /**
     * `ScopedSymbol.define` (Tree.ts:112-115): the member table takes the
     * symbol, which records this symbol's table as where it is defined.
     */
    method DefineMember(sym: Symbol)
      requires members != null && members.Chained()
      modifies members, sym
      ensures members.symbols == old(members.symbols)[sym.name := sym]
      ensures sym.definedInScope == members
      ensures ResolveMember(sym.name) == Ref(sym)
    {
      members.Define(sym);
    }

    /**
     * `ScopedSymbol.resolveMember` (Tree.ts:124-126): only the symbol's own
     * table, never its enclosing scope.
     */
    function ResolveMember(name: string): (r: JsRef)
      requires members != null
      reads members
      ensures r.Ref? <==> name in members.symbols
      ensures r.Ref? ==> r.sym == members.symbols[name]
    {
      MapGet(members.symbols, name)
    }
  }

  class Scope {
    var symbols: map<string, Symbol>
    /** null for the global scope */
    const enclosing: Scope?
    /** how many scopes enclose this one */
    ghost const depth: nat

    /** The enclosing chain is finite: each enclosing scope is shallower. */
    ghost predicate Chained()
      decreases depth
    {
      enclosing != null ==> enclosing.depth < depth && enclosing.Chained()
    }

    /** This scope, then the scopes enclosing it, innermost first. */
    ghost function Ancestors(): (r: seq<Scope>)
      requires Chained()
      ensures |r| >= 1 && r[0] == this
      decreases depth
    {
      [this] + if enclosing == null then [] else enclosing.Ancestors()
    }

    /** The scopes a resolution may read. */
    ghost function Chain(): (r: set<Scope>)
      requires Chained()
      ensures this in r
      decreases depth
    {
      {this} + if enclosing == null then {} else enclosing.Chain()
    }

    /** Every symbol is stored under its own name. */
    ghost predicate Keyed()
      reads this
    {
      forall n :: n in symbols ==> symbols[n].name == n
    }

    /** `new GlobalScope()`, `new InterludeScope(parent)`, `new BlockScope(parent)` (Tree.ts:67-69, 84-101). */
    constructor (enclosing: Scope?)
      requires enclosing != null ==> enclosing.Chained()
      ensures this.enclosing == enclosing && symbols == map[] && Chained()
    {
      this.enclosing := enclosing;
      this.depth := if enclosing == null then 0 else enclosing.depth + 1;
      this.symbols := map[];
    }

    /**
     * `define(symbol)` (Tree.ts:71-74, 112-115): the symbol is stored under
     * its name, replacing an earlier one, and records this scope as the one
     * defining it. Its own member table and that table's enclosing scope
     * stay as they were.
     */
    method Define(sym: Symbol)
      requires Chained()
      modifies this, sym
      ensures symbols == old(symbols)[sym.name := sym]
      ensures sym.definedInScope == this
      ensures old(Keyed()) ==> Keyed()
      ensures Resolve(sym.name) == Ref(sym)
      ensures forall n :: n != sym.name ==> Resolve(n) == old(Resolve(n))
    {
      if enclosing != null {
        enclosing.Outside(this);
      }
      symbols := symbols[sym.name := sym];
      sym.definedInScope := this;
    }

    /**
     * `resolve(name)` as Tree.ts:76-81 writes it. `Map.get` of a missing
     * name is `undefined`, and `undefined !== null` holds (MapGet never
     * gives JsNull), so the first return is always taken: the result is the
     * lookup in this scope alone, and the enclosing scope is never consulted.
     */
    function ResolveAsWritten(name: string): (r: JsRef)
      reads this
      ensures r != JsNull
      ensures r.Ref? <==> name in symbols
    {
      MapGet(symbols, name)
    }

    /**
     * `resolve(name)` as evidently intended: this scope's symbol of that
     * name, else the enclosing scope's resolution, else null.
     */
    function Resolve(name: string): (r: JsRef)
      requires Chained()
      reads Chain()
      ensures r != JsUndefined
      ensures name in symbols ==> r == Ref(symbols[name])
      decreases depth
    {
      var s := MapGet(symbols, name);
      if s.Ref? then s
      else if enclosing != null then enclosing.Resolve(name)
      else JsNull
    }

    /**
     * The written resolve misses every name defined only further out: where
     * the intended resolution finds the enclosing scope's symbol, the written
     * one answers `undefined`.
     */
    lemma ResolveAsWrittenMissesEnclosing(name: string)
      requires Chained() && enclosing != null
      requires name !in symbols && name in enclosing.symbols
      ensures ResolveAsWritten(name) == JsUndefined
      ensures Resolve(name) == Ref(enclosing.symbols[name])
    {
    }

    /** Where this scope defines the name, the written and intended resolutions agree. */
    lemma ResolveAsWrittenLocal(name: string)
      requires Chained() && name in symbols
      ensures ResolveAsWritten(name) == Resolve(name)
    {
    }

    /** A symbol resolution finds comes from some scope of the chain. */
    lemma {:induction false} ResolveFromChain(name: string)
      requires Chained()
      ensures Resolve(name).Ref? ==> exists k :: 0 <= k < |Ancestors()| && name in Ancestors()[k].symbols
      decreases depth
    {
      var a := Ancestors();
      if name in symbols {
        assert name in a[0].symbols;
      } else if enclosing != null && Resolve(name).Ref? {
        enclosing.ResolveFromChain(name);
        var b := enclosing.Ancestors();
        assert a == [this] + b;
        var k :| 0 <= k < |b| && name in b[k].symbols;
        assert a[k + 1] == b[k];
      }
    }

    /** A name some scope of the chain defines always resolves to a symbol. */
    lemma {:induction false} ResolveDefined(name: string, k: nat)
      requires Chained()
      requires k < |Ancestors()| && name in Ancestors()[k].symbols
      ensures Resolve(name).Ref?
      decreases depth
    {
      if name !in symbols {
        var a := Ancestors();
        assert k > 0 && enclosing != null;
        var b := enclosing.Ancestors();
        assert a == [this] + b;
        assert a[k] == b[k - 1];
        enclosing.ResolveDefined(name, k - 1);
      }
    }

    /**
     * Resolution finds the innermost scope of the chain that defines the
     * name: the `k`-th scope, when none of the scopes inside it does.
     */
    lemma {:induction false} ResolveNearest(name: string, k: nat)
      requires Chained()
      requires k < |Ancestors()| && name in Ancestors()[k].symbols
      requires forall j :: 0 <= j < k ==> name !in Ancestors()[j].symbols
      ensures Resolve(name) == Ref(Ancestors()[k].symbols[name])
      decreases depth
    {
      var a := Ancestors();
      if k > 0 {
        assert name !in a[0].symbols;
        assert enclosing != null;
        var b := enclosing.Ancestors();
        assert a == [this] + b;
        assert a[k] == b[k - 1];
        forall j | 0 <= j < k - 1 ensures name !in b[j].symbols {
          assert a[j + 1] == b[j];
        }
        enclosing.ResolveNearest(name, k - 1);
      }
    }

    /** A scope deeper than this one is not in this one's chain. */
    lemma Outside(inner: Scope)
      requires Chained() && inner.depth > depth
      ensures inner !in Chain()
      decreases depth
    {
      if enclosing != null {
        enclosing.Outside(inner);
      }
    }
  }
}
