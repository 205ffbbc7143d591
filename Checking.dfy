/**
 * The semantic checks run over a parsed survey (SemanticChecking.ts).
 *
 * Every check either passes or throws a positioned error; here it returns
 * an `Outcome`. The structural checks on questions and options are stated
 * as functions that report the first failure exactly as the source does,
 * and the rules they enforce are stated a second time declaratively
 * (`QuestionRules`, `OptionRules`, `ValueRule`); the lemmas prove that a
 * check passes exactly when its rules hold.
 */
module Checking {
  import opened Utils
  import opened Tree
  import opened AttributeOrder
  import opened Walking

  const ROW_ORDER: set<string> := {"rotate_rows", "randomize_rows"}
  const COLUMN_ORDER: set<string> := {"rotate_columns", "randomize_columns"}
  const QUESTION_TYPES: set<string> :=
    {"single_choice", "multiple_choice", "single_choice_matrix", "multi_choice_matrix", "text", "number"}
  /** Types that take no rows, nor row ordering, nor selection bounds. */
  const NO_ROW_TYPES: set<string> := {"number", "text"}
  /** Types that take no columns, nor column ordering. */
  const NO_COLUMN_TYPES: set<string> := {"number", "text", "single_choice", "multiple_choice"}
  /** Types that take no value bounds. */
  const CHOICE_TYPES: set<string> :=
    {"single_choice", "multiple_choice", "single_choice_matrix", "multi_choice_matrix"}
  const MATRIX_TYPES: set<string> := {"single_choice_matrix", "multi_choice_matrix"}
  const SELECTION_BOUNDS: set<string> := {"minimal_selections", "maximum_selections"}
  const VALUE_BOUNDS: set<string> := {"minimal_value", "maximum_value"}
  const OPTION_KINDS: set<string> := {"xor", "all"}
  const OPTION_ATTRIBUTES: set<string> := {"fixed", "data", "xor", "all", "col"}

  /** `js_error(message, tok.tokLine, tok.tokPos)` */
  function ErrorAt(message: string, tok: Token): Failure
  {
    ParseError(message, tok.line, tok.pos)
  }

  /** The first outcome that fails, or the second. */
  function AndThen(first: Outcome, second: Outcome): (r: Outcome)
    ensures r.Pass? <==> first.Pass? && second.Pass?
    ensures r.Fail? ==> r == (if first.Fail? then first else second)
  {
    if first.Fail? then first else second
  }

  function NamesOf(s: seq<Attr>): (r: seq<string>)
    ensures |r| == |s| && forall k :: 0 <= k < |s| ==> r[k] == s[k].name
  {
    if s == [] then [] else [s[0].name] + NamesOf(s[1..])
  }

  // ---------------------------------------------------------------------
  // Declarative vocabulary

  /** No two attributes have names in the group. */
  predicate AtMostOneIn(s: seq<Attr>, names: set<string>)
  {
    forall i, j :: 0 <= i < j < |s| && s[i].name in names ==> s[j].name !in names
  }

  /** No attribute has a name in the group. */
  predicate NoneIn(s: seq<Attr>, names: set<string>)
  {
    forall k :: 0 <= k < |s| ==> s[k].name !in names
  }

  /** Attribute `k` is the one custom attribute, and it carries no value. */
  predicate NamedBy(s: seq<Attr>, k: int)
  {
    0 <= k < |s| && s[k].isCustom && s[k].value.None?
    && forall j :: 0 <= j < |s| && j != k ==> !s[j].isCustom
  }

  /** Exactly one attribute is custom, and it carries no value. */
  predicate HasName(s: seq<Attr>)
  {
    exists k :: 0 <= k < |s| && NamedBy(s, k)
  }

  lemma {:induction false} FilterEmpty(s: seq<Attr>, names: set<string>)
    ensures |Filter(s, names)| == 0 <==> NoneIn(s, names)
    decreases |s|
  {
    if s != [] {
      FilterEmpty(s[1..], names);
      assert forall k :: 1 <= k < |s| ==> s[1..][k - 1] == s[k];
    }
  }

  lemma {:induction false} FilterAtMostOne(s: seq<Attr>, names: set<string>)
    ensures |Filter(s, names)| <= 1 <==> AtMostOneIn(s, names)
    decreases |s|
  {
    if s != [] {
      FilterAtMostOne(s[1..], names);
      FilterEmpty(s[1..], names);
      assert forall k :: 1 <= k < |s| ==> s[1..][k - 1] == s[k];
    }
  }

  lemma SortKeepsGroups(s: seq<Attr>, names: set<string>)
    ensures NoneIn(SortByName(s), names) <==> NoneIn(s, names)
    ensures AtMostOneIn(SortByName(s), names) <==> AtMostOneIn(s, names)
  {
    SortKeepsCounts(s, names);
    FilterEmpty(s, names);
    FilterEmpty(SortByName(s), names);
    FilterAtMostOne(s, names);
    FilterAtMostOne(SortByName(s), names);
  }

  // ---------------------------------------------------------------------
  // checkName (SemanticChecking.ts:18-38)

  /** The custom attributes, in order: these are taken as names. */
  function Customs(s: seq<Attr>): (r: seq<Attr>)
    ensures |r| <= |s|
    ensures forall a :: a in r ==> a in s && a.isCustom
    decreases |s|
  {
    if s == [] then []
    else if s[0].isCustom then [s[0]] + Customs(s[1..])
    else Customs(s[1..])
  }

  function CheckName(attrs: seq<Attr>, start: Token): Outcome
  {
    var c := Customs(attrs);
    if |c| == 0 then Fail(ErrorAt("Question has no name", start))
    else if |c| > 1 then Fail(ErrorAt("More than one name found: " + Join(NamesOf(c), " "), start))
    else if c[0].value.Some? then
      Fail(ErrorAt(c[0].name + " is custom attribute and is used as name of the question, "
                   + "there should be no value assigned to this attribute", c[0].start))
    else Pass
  }

  lemma {:induction false} CustomsOfNamed(s: seq<Attr>, k: int)
    requires 0 <= k < |s| && s[k].isCustom && forall j :: 0 <= j < |s| && j != k ==> !s[j].isCustom
    ensures Customs(s) == [s[k]]
    decreases |s|
  {
    if k > 0 {
      CustomsOfNamed(s[1..], k - 1);
    } else {
      NoCustoms(s[1..]);
    }
  }

  lemma {:induction false} NoCustoms(s: seq<Attr>)
    requires forall j :: 0 <= j < |s| ==> !s[j].isCustom
    ensures Customs(s) == []
    decreases |s|
  {
    if s != [] {
      NoCustoms(s[1..]);
    }
  }

  lemma {:induction false} SingleCustom(s: seq<Attr>)
    requires |Customs(s)| == 1
    ensures exists k :: 0 <= k < |s| && s[k] == Customs(s)[0]
                        && s[k].isCustom && forall j :: 0 <= j < |s| && j != k ==> !s[j].isCustom
    decreases |s|
  {
    if s[0].isCustom {
      assert |Customs(s[1..])| == 0;
      forall j | 1 <= j < |s| ensures !s[j].isCustom {
        if s[j].isCustom {
          CustomAt(s[1..], j - 1);
        }
      }
    } else {
      SingleCustom(s[1..]);
      var k :| 0 <= k < |s[1..]| && s[1..][k] == Customs(s[1..])[0]
                && s[1..][k].isCustom && forall j :: 0 <= j < |s[1..]| && j != k ==> !s[1..][j].isCustom;
      assert s[k + 1] == s[1..][k];
      forall j | 0 <= j < |s| && j != k + 1 ensures !s[j].isCustom {
        if j > 0 {
          assert s[j] == s[1..][j - 1];
        }
      }
    }
  }

  lemma {:induction false} CustomAt(s: seq<Attr>, j: nat)
    requires j < |s| && s[j].isCustom
    ensures |Customs(s)| >= 1
    decreases |s|
  {
    if j > 0 && !s[0].isCustom {
      CustomAt(s[1..], j - 1);
    }
  }

  /** checkName passes exactly when there is one custom attribute, valueless. */
  lemma CheckNameIff(attrs: seq<Attr>, start: Token)
    ensures CheckName(attrs, start).Pass? <==> HasName(attrs)
  {
    if k :| 0 <= k < |attrs| && NamedBy(attrs, k) {
      CustomsOfNamed(attrs, k);
    }
    if CheckName(attrs, start).Pass? {
      SingleCustom(attrs);
      var k :| 0 <= k < |attrs| && attrs[k] == Customs(attrs)[0]
                && attrs[k].isCustom && forall j :: 0 <= j < |attrs| && j != k ==> !attrs[j].isCustom;
      assert NamedBy(attrs, k);
    }
  }

  /** A question with no custom attribute fails with "Question has no name" at its start. */
  lemma NoNameReported(attrs: seq<Attr>, start: Token)
    requires forall k :: 0 <= k < |attrs| ==> !attrs[k].isCustom
    ensures CheckName(attrs, start) == Fail(ParseError("Question has no name", start.line, start.pos))
  {
    NoCustoms(attrs);
  }

  // ---------------------------------------------------------------------
  // checkDuplicates (SemanticChecking.ts:40-55)

  /** The scan over a sorted list: the first pair of equal neighbours. */
  function DuplicateScan(s: seq<Attr>): Outcome
    decreases |s|
  {
    if |s| < 2 then Pass
    else if s[0].name == s[1].name then Fail(ErrorAt("Duplicate attributes: " + s[0].name, s[0].start))
    else DuplicateScan(s[1..])
  }

  /** On a sorted list, the neighbour scan finds a duplicate iff there is one. */
  lemma {:induction false} DuplicateScanIff(s: seq<Attr>)
    requires Sorted(s)
    ensures DuplicateScan(s).Pass? <==> DistinctNames(s)
    decreases |s|
  {
    if |s| >= 2 {
      assert Sorted(s[1..]) by {
        forall i, j | 0 <= i < j < |s[1..]| ensures NameLe(s[1..][i], s[1..][j]) {
          assert s[1..][i] == s[i + 1] && s[1..][j] == s[j + 1];
        }
      }
      DuplicateScanIff(s[1..]);
      if DistinctNames(s[1..]) && s[0].name != s[1].name {
        forall j | 0 < j < |s| ensures s[0].name != s[j].name {
          if s[0].name == s[j].name {
            assert NameLe(s[0], s[1]) && NameLe(s[1], s[j]);
            LexTotal(s[0].name, s[1].name);
          }
        }
        forall i, j | 0 <= i < j < |s| ensures s[i].name != s[j].name {
          if i > 0 {
            assert s[i] == s[1..][i - 1] && s[j] == s[1..][j - 1];
          }
        }
      }
      if DistinctNames(s) {
        forall i, j | 0 <= i < j < |s[1..]| ensures s[1..][i].name != s[1..][j].name {
          assert s[1..][i] == s[i + 1] && s[1..][j] == s[j + 1];
        }
      }
    }
  }

  /**
   * `checkDuplicates` on an array: sorts it by name in place, then scans
   * neighbours. It fails exactly when two attributes share a name.
   */
  method CheckDuplicates(a: array<Attr>) returns (r: Outcome)
    modifies a
    ensures a[..] == SortByName(old(a[..]))
    ensures r == DuplicateScan(a[..])
    ensures r.Pass? <==> DistinctNames(old(a[..]))
  {
    SortInPlace(a);
    DuplicateScanIff(a[..]);
    SortKeepsDistinct(old(a[..]));
    r := ScanNeighbours(a);
  }

  /** The loop of `checkDuplicates` over the sorted array: the first pair of equal neighbours. */
  method ScanNeighbours(a: array<Attr>) returns (r: Outcome)
    ensures r == DuplicateScan(a[..])
  {
    var i := 0;
    while i + 1 < a.Length
      invariant 0 <= i <= a.Length
      invariant a.Length > 0 ==> i < a.Length
      invariant DuplicateScan(a[..]) == DuplicateScan(a[i..])
    {
      assert a[i..][1..] == a[i + 1..];
      if a[i].name == a[i + 1].name {
        return Fail(ErrorAt("Duplicate attributes: " + a[i].name, a[i].start));
      }
      i := i + 1;
    }
    r := Pass;
  }

  // ---------------------------------------------------------------------
  // checkSameKindUtil and the groups it is used with (SemanticChecking.ts:57-78, 152-154)

  function SameKind(attrs: seq<Attr>, names: set<string>): Outcome
  {
    var r := Filter(attrs, names);
    if |r| > 1 then Fail(ErrorAt("Duplicate kinds of attributes: " + Join(NamesOf(r), ", "), r[0].start))
    else Pass
  }

  lemma SameKindIff(attrs: seq<Attr>, names: set<string>)
    ensures SameKind(attrs, names).Pass? <==> AtMostOneIn(attrs, names)
  {
    FilterAtMostOne(attrs, names);
  }

  // ---------------------------------------------------------------------
  // findQuestionType (SemanticChecking.ts:101-111)

  /** The name of the last attribute naming a question type. */
  function QuestionType(attrs: seq<Attr>): (r: Option<string>)
    ensures r.None? <==> NoneIn(attrs, QUESTION_TYPES)
    ensures r.Some? ==> r.value in QUESTION_TYPES
    decreases |attrs|
  {
    if attrs == [] then None
    else if attrs[|attrs| - 1].name in QUESTION_TYPES then Some(attrs[|attrs| - 1].name)
    else
      var r := QuestionType(attrs[..|attrs| - 1]);
      assert forall k :: 0 <= k < |attrs| - 1 ==> attrs[..|attrs| - 1][k] == attrs[k];
      r
  }

  /** The type found is the name of an attribute after which no other names a type. */
  lemma {:induction false} QuestionTypeLast(attrs: seq<Attr>)
    requires QuestionType(attrs).Some?
    ensures exists k :: 0 <= k < |attrs| && attrs[k].name == QuestionType(attrs).value
                        && forall j :: k < j < |attrs| ==> attrs[j].name !in QUESTION_TYPES
    decreases |attrs|
  {
    var n := |attrs| - 1;
    if attrs[n].name !in QUESTION_TYPES {
      var init := attrs[..n];
      QuestionTypeLast(init);
      var k :| 0 <= k < |init| && init[k].name == QuestionType(init).value
               && forall j :: k < j < |init| ==> init[j].name !in QUESTION_TYPES;
      assert attrs[k] == init[k];
      forall j | k < j < |attrs| ensures attrs[j].name !in QUESTION_TYPES {
        if j < n {
          assert attrs[j] == init[j];
        }
      }
    }
  }

  function NoTypeError(start: Token): Failure
  {
    ErrorAt("You need to specify questiont type", start)
  }

  /** The loop of `findQuestionType`: the last type attribute wins. */
  method FindQuestionType(attrs: seq<Attr>, start: Token) returns (r: Result<string>)
    ensures r.Ok? <==> !NoneIn(attrs, QUESTION_TYPES)
    ensures r.Ok? ==> r.value in QUESTION_TYPES
                      && exists k :: 0 <= k < |attrs| && attrs[k].name == r.value
                                     && forall j :: k < j < |attrs| ==> attrs[j].name !in QUESTION_TYPES
    ensures r.Err? ==> r.error == NoTypeError(start)
  {
    var found: Option<string> := None;
    var i := 0;
    while i < |attrs|
      invariant 0 <= i <= |attrs|
      invariant found == QuestionType(attrs[..i])
    {
      assert attrs[..i + 1][..i] == attrs[..i];
      if attrs[i].name in QUESTION_TYPES {
        found := Some(attrs[i].name);
      }
      i := i + 1;
    }
    assert attrs[..i] == attrs;
    if found.Some? {
      QuestionTypeLast(attrs);
      r := Ok(found.value);
    } else {
      r := Err(NoTypeError(start));
    }
  }

  // ---------------------------------------------------------------------
  // checkInAppropriateAttributes (SemanticChecking.ts:113-121)

  /** The first attribute whose name is in the group. */
  function FirstIn(attrs: seq<Attr>, names: set<string>): (r: Option<Attr>)
    ensures r.None? <==> NoneIn(attrs, names)
    ensures r.Some? ==> exists k :: 0 <= k < |attrs| && attrs[k] == r.value && r.value.name in names
                                    && forall j :: 0 <= j < k ==> attrs[j].name !in names
    decreases |attrs|
  {
    if attrs == [] then None
    else if attrs[0].name in names then Some(attrs[0])
    else
      var r := FirstIn(attrs[1..], names);
      assert forall k :: 1 <= k < |attrs| ==> attrs[1..][k - 1] == attrs[k];
      r
  }

  function Inappropriate(attrs: seq<Attr>, start: Token, types: set<string>, bad: set<string>): Outcome
  {
    match QuestionType(attrs)
    case None => Fail(NoTypeError(start))
    case Some(t) =>
      if t !in types then Pass
      else match FirstIn(attrs, bad)
        case None => Pass
        case Some(a) => Fail(ErrorAt(a.name + " does not apply to " + t + " questions", a.start))
  }

  // ---------------------------------------------------------------------
  // The row, column, bound and xor/all checks (SemanticChecking.ts:80-99, 123-150)

  function RowsRelated(attrs: seq<Attr>, rows: seq<Opt>, start: Token): Outcome
  {
    match QuestionType(attrs)
    case None => Fail(NoTypeError(start))
    case Some(t) =>
      if t !in NO_ROW_TYPES then Pass
      else if |rows| > 0 then Fail(ErrorAt(t + " questions cannot have rows", rows[0].start))
      else Inappropriate(attrs, start, NO_ROW_TYPES, ROW_ORDER)
  }

  /**
   * The error about columns is positioned at the first ROW; with columns
   * but no rows, reading `rows[0].start` throws instead.
   */
  function ColumnsRelated(attrs: seq<Attr>, rows: seq<Opt>, columns: seq<Opt>, start: Token): Outcome
  {
    match QuestionType(attrs)
    case None => Fail(NoTypeError(start))
    case Some(t) =>
      if t !in NO_COLUMN_TYPES then Pass
      else if |columns| > 0 then
        if |rows| > 0 then Fail(ErrorAt(t + " questions cannot have columns", rows[0].start))
        else Fail(Fault("TypeError: Cannot read property 'start' of undefined"))
      else Inappropriate(attrs, start, NO_COLUMN_TYPES, COLUMN_ORDER)
  }

  /** The first row carrying an attribute of this name. */
  function FirstRowWith(rows: seq<Opt>, name: string): (r: Option<Opt>)
    ensures r.None? <==> forall k :: 0 <= k < |rows| ==> !HasAttrNamed(rows[k].attributes, name)
    ensures r.Some? ==> r.value in rows && HasAttrNamed(r.value.attributes, name)
    decreases |rows|
  {
    if rows == [] then None
    else if name in NamesOf(rows[0].attributes) then Some(rows[0])
    else
      var r := FirstRowWith(rows[1..], name);
      assert forall k :: 1 <= k < |rows| ==> rows[1..][k - 1] == rows[k];
      r
  }

  function XorAllOnOptions(attrs: seq<Attr>, rows: seq<Opt>, start: Token): Outcome
  {
    match QuestionType(attrs)
    case None => Fail(NoTypeError(start))
    case Some(t) =>
      if t in NO_ROW_TYPES || t !in MATRIX_TYPES then Pass
      else match FirstRowWith(rows, "xor")
        case Some(r) => Fail(ErrorAt("xor attribute does not apply to rows in matrix questions", r.start))
        case None =>
          match FirstRowWith(rows, "all")
          case Some(r) => Fail(ErrorAt("'all' attribute does not apply to rows in matrix questions", r.start))
          case None => Pass
  }

  /**
   * `checkQuestionStructure` on a question (SemanticChecking.ts:167-178):
   * the name check sees the attributes as written; `checkDuplicates` sorts
   * them in place, so every later check sees them sorted by name.
   */
  function CheckQuestion(q: Component): Outcome
    requires q.Question?
  {
    var s := SortByName(q.attributes);
    AndThen(CheckName(q.attributes, q.start),
    AndThen(DuplicateScan(s),
    AndThen(SameKind(s, ROW_ORDER),
    AndThen(SameKind(s, COLUMN_ORDER),
    AndThen(SameKind(s, QUESTION_TYPES),
    AndThen(RowsRelated(s, q.rows, q.start),
    AndThen(ColumnsRelated(s, q.rows, q.columns, q.start),
    AndThen(Inappropriate(s, q.start, NO_ROW_TYPES, SELECTION_BOUNDS),
    AndThen(Inappropriate(s, q.start, CHOICE_TYPES, VALUE_BOUNDS),
            XorAllOnOptions(s, q.rows, q.start))))))))))
  }

  /** What a question of type `t` may not have. */
  predicate TypeRules(q: Component, t: string)
    requires q.Question?
  {
    NoRowRule(q, t) && NoColumnRule(q, t) && ChoiceRule(q, t) && MatrixRule(q, t)
  }

  /** Number and text questions have no rows, no row ordering and no selection bounds. */
  predicate NoRowRule(q: Component, t: string)
    requires q.Question?
  {
    t in NO_ROW_TYPES ==> |q.rows| == 0 && NoneIn(q.attributes, ROW_ORDER) && NoneIn(q.attributes, SELECTION_BOUNDS)
  }

  /** Questions that are not matrices have no columns and no column ordering. */
  predicate NoColumnRule(q: Component, t: string)
    requires q.Question?
  {
    t in NO_COLUMN_TYPES ==> |q.columns| == 0 && NoneIn(q.attributes, COLUMN_ORDER)
  }

  /** Choice questions have no value bounds. */
  predicate ChoiceRule(q: Component, t: string)
    requires q.Question?
  {
    t in CHOICE_TYPES ==> NoneIn(q.attributes, VALUE_BOUNDS)
  }

  /** The rows of a matrix question carry neither `xor` nor `all`. */
  predicate MatrixRule(q: Component, t: string)
    requires q.Question?
  {
    t in MATRIX_TYPES ==>
      forall r :: 0 <= r < |q.rows| ==>
        !HasAttrNamed(q.rows[r].attributes, "xor") && !HasAttrNamed(q.rows[r].attributes, "all")
  }

  /** The rules a well-formed question obeys, stated without the checks' order. */
  predicate QuestionRules(q: Component)
    requires q.Question?
  {
    var a := q.attributes;
    HasName(a)
    && DistinctNames(a)
    && AtMostOneIn(a, ROW_ORDER) && AtMostOneIn(a, COLUMN_ORDER)
    && AtMostOneIn(a, QUESTION_TYPES) && !NoneIn(a, QUESTION_TYPES)
    && forall k :: 0 <= k < |a| && a[k].name in QUESTION_TYPES ==> TypeRules(q, a[k].name)
  }

  /** Only one name among the question types occurs. */
  lemma OneTypeName(a: seq<Attr>, j: int)
    requires AtMostOneIn(a, QUESTION_TYPES) && 0 <= j < |a| && a[j].name in QUESTION_TYPES
    ensures forall k :: 0 <= k < |a| && a[k].name in QUESTION_TYPES ==> k == j
  {
  }

  /** With one type attribute, the sorted list's type is that attribute's name. */
  lemma TypeOfSorted(a: seq<Attr>) returns (j: int)
    requires AtMostOneIn(a, QUESTION_TYPES) && !NoneIn(a, QUESTION_TYPES)
    ensures QuestionType(SortByName(a)).Some?
    ensures 0 <= j < |a| && a[j].name == QuestionType(SortByName(a)).value
    ensures forall k :: 0 <= k < |a| && a[k].name in QUESTION_TYPES ==> a[k].name == a[j].name
  {
    var s := SortByName(a);
    SortKeepsGroups(a, QUESTION_TYPES);
    var t := QuestionType(s).value;
    QuestionTypeLast(s);
    var i :| 0 <= i < |s| && s[i].name == t;
    assert !NoneIn(s, {t});
    SortKeepsGroups(a, {t});
    j :| 0 <= j < |a| && a[j].name in {t};
    OneTypeName(a, j);
  }

  lemma InappropriateIff(s: seq<Attr>, start: Token, types: set<string>, bad: set<string>, t: string)
    requires QuestionType(s) == Some(t)
    ensures Inappropriate(s, start, types, bad).Pass? <==> (t in types ==> NoneIn(s, bad))
  {
  }

  lemma RowsRelatedIff(s: seq<Attr>, rows: seq<Opt>, start: Token, t: string)
    requires QuestionType(s) == Some(t)
    ensures RowsRelated(s, rows, start).Pass? <==> (t in NO_ROW_TYPES ==> |rows| == 0 && NoneIn(s, ROW_ORDER))
  {
    InappropriateIff(s, start, NO_ROW_TYPES, ROW_ORDER, t);
  }

  lemma ColumnsRelatedIff(s: seq<Attr>, rows: seq<Opt>, columns: seq<Opt>, start: Token, t: string)
    requires QuestionType(s) == Some(t)
    ensures ColumnsRelated(s, rows, columns, start).Pass? <==>
            (t in NO_COLUMN_TYPES ==> |columns| == 0 && NoneIn(s, COLUMN_ORDER))
  {
    InappropriateIff(s, start, NO_COLUMN_TYPES, COLUMN_ORDER, t);
  }

  lemma XorAllIff(s: seq<Attr>, rows: seq<Opt>, start: Token, t: string)
    requires QuestionType(s) == Some(t)
    ensures XorAllOnOptions(s, rows, start).Pass? <==>
            (t in MATRIX_TYPES ==> forall r :: 0 <= r < |rows| ==>
               !HasAttrNamed(rows[r].attributes, "xor") && !HasAttrNamed(rows[r].attributes, "all"))
  {
  }

  /** The five checks that depend on the type `t`, against the rules for `t`. */
  predicate TypedChecksPass(q: Component, s: seq<Attr>)
    requires q.Question?
  {
    RowsRelated(s, q.rows, q.start).Pass? && ColumnsRelated(s, q.rows, q.columns, q.start).Pass?
    && Inappropriate(s, q.start, NO_ROW_TYPES, SELECTION_BOUNDS).Pass?
    && Inappropriate(s, q.start, CHOICE_TYPES, VALUE_BOUNDS).Pass?
    && XorAllOnOptions(s, q.rows, q.start).Pass?
  }

  lemma TypeRulesIff(q: Component, t: string)
    requires q.Question? && QuestionType(SortByName(q.attributes)) == Some(t)
    ensures TypedChecksPass(q, SortByName(q.attributes)) <==> TypeRules(q, t)
  {
    var s := SortByName(q.attributes);
    NoRowChecks(q, t);
    NoColumnChecks(q, t);
    ChoiceChecks(q, t);
    XorAllIff(s, q.rows, q.start, t);
  }

  lemma NoRowChecks(q: Component, t: string)
    requires q.Question? && QuestionType(SortByName(q.attributes)) == Some(t)
    ensures RowsRelated(SortByName(q.attributes), q.rows, q.start).Pass?
            && Inappropriate(SortByName(q.attributes), q.start, NO_ROW_TYPES, SELECTION_BOUNDS).Pass?
            <==> NoRowRule(q, t)
  {
    var s := SortByName(q.attributes);
    SortKeepsGroups(q.attributes, ROW_ORDER);
    SortKeepsGroups(q.attributes, SELECTION_BOUNDS);
    RowsRelatedIff(s, q.rows, q.start, t);
    InappropriateIff(s, q.start, NO_ROW_TYPES, SELECTION_BOUNDS, t);
  }

  lemma NoColumnChecks(q: Component, t: string)
    requires q.Question? && QuestionType(SortByName(q.attributes)) == Some(t)
    ensures ColumnsRelated(SortByName(q.attributes), q.rows, q.columns, q.start).Pass? <==> NoColumnRule(q, t)
  {
    SortKeepsGroups(q.attributes, COLUMN_ORDER);
    ColumnsRelatedIff(SortByName(q.attributes), q.rows, q.columns, q.start, t);
  }

  lemma ChoiceChecks(q: Component, t: string)
    requires q.Question? && QuestionType(SortByName(q.attributes)) == Some(t)
    ensures Inappropriate(SortByName(q.attributes), q.start, CHOICE_TYPES, VALUE_BOUNDS).Pass? <==> ChoiceRule(q, t)
  {
    SortKeepsGroups(q.attributes, VALUE_BOUNDS);
    InappropriateIff(SortByName(q.attributes), q.start, CHOICE_TYPES, VALUE_BOUNDS, t);
  }

  /** The checks after the type is known, against the per-type rules. */
  lemma TypedChecksIff(q: Component)
    requires q.Question? && AtMostOneIn(q.attributes, QUESTION_TYPES)
    ensures TypedChecksPass(q, SortByName(q.attributes))
            <==>
            (!NoneIn(q.attributes, QUESTION_TYPES)
             && forall k :: 0 <= k < |q.attributes| && q.attributes[k].name in QUESTION_TYPES
                            ==> TypeRules(q, q.attributes[k].name))
  {
    var a := q.attributes;
    var s := SortByName(a);
    SortKeepsGroups(a, QUESTION_TYPES);
    if !NoneIn(a, QUESTION_TYPES) {
      var j := TypeOfSorted(a);
      OneTypeName(a, j);
      TypeRulesIff(q, a[j].name);
    }
  }

  /** Sorting then scanning finds a duplicate exactly when there is one. */
  lemma SortedScanIff(a: seq<Attr>)
    ensures DuplicateScan(SortByName(a)).Pass? <==> DistinctNames(a)
  {
    SortSorted(a);
    DuplicateScanIff(SortByName(a));
    SortKeepsDistinct(a);
  }

  lemma SortedSameKindIff(a: seq<Attr>, names: set<string>)
    ensures SameKind(SortByName(a), names).Pass? <==> AtMostOneIn(a, names)
  {
    SameKindIff(SortByName(a), names);
    SortKeepsGroups(a, names);
  }

  /**
   * The question checks pass exactly when the question obeys the rules:
   * one valueless name, no duplicate names, at most one attribute of each
   * exclusive kind, exactly one question type, and the per-type
   * restrictions on rows, columns, ordering, bounds and xor/all.
   */
  lemma CheckQuestionIff(q: Component)
    requires q.Question?
    ensures CheckQuestion(q).Pass? <==> QuestionRules(q)
  {
    var a := q.attributes;
    CheckNameIff(a, q.start);
    SortedScanIff(a);
    SortedSameKindIff(a, ROW_ORDER);
    SortedSameKindIff(a, COLUMN_ORDER);
    SortedSameKindIff(a, QUESTION_TYPES);
    if AtMostOneIn(a, QUESTION_TYPES) {
      TypedChecksIff(q);
    }
  }

  // ---------------------------------------------------------------------
  // Options (SemanticChecking.ts:156-164, 180-185)

  function FirstForeign(attrs: seq<Attr>): (r: Option<Attr>)
    ensures r.None? <==> forall k :: 0 <= k < |attrs| && !attrs[k].isCustom ==> attrs[k].name in OPTION_ATTRIBUTES
    ensures r.Some? ==> r.value in attrs && !r.value.isCustom && r.value.name !in OPTION_ATTRIBUTES
    decreases |attrs|
  {
    if attrs == [] then None
    else if !attrs[0].isCustom && attrs[0].name !in OPTION_ATTRIBUTES then Some(attrs[0])
    else
      var r := FirstForeign(attrs[1..]);
      assert forall k :: 1 <= k < |attrs| ==> attrs[1..][k - 1] == attrs[k];
      r
  }

  /** `checkIfAttribApplyToOption`: only the listed built-in attributes apply to an option. */
  function ApplyToOption(attrs: seq<Attr>): Outcome
  {
    match FirstForeign(attrs)
    case None => Pass
    case Some(a) => Fail(ErrorAt(a.name + " does not apply to option", a.start))
  }

  /** `checkQuestionStructure` on a row or a column. */
  function CheckOption(o: Opt): Outcome
  {
    var s := SortByName(o.attributes);
    AndThen(CheckName(o.attributes, o.start),
    AndThen(ApplyToOption(o.attributes),
    AndThen(DuplicateScan(s),
            SameKind(s, OPTION_KINDS))))
  }

  predicate OptionRules(o: Opt)
  {
    var a := o.attributes;
    HasName(a)
    && (forall k :: 0 <= k < |a| && !a[k].isCustom ==> a[k].name in OPTION_ATTRIBUTES)
    && DistinctNames(a)
    && AtMostOneIn(a, OPTION_KINDS)
  }

  /** The option checks pass exactly when the option obeys its rules. */
  lemma CheckOptionIff(o: Opt)
    ensures CheckOption(o).Pass? <==> OptionRules(o)
  {
    CheckNameIff(o.attributes, o.start);
    SortedScanIff(o.attributes);
    SortedSameKindIff(o.attributes, OPTION_KINDS);
  }

  // ---------------------------------------------------------------------
  // Attribute values (SemanticChecking.ts:188-217)

  /** A number as `+text` reads it: not a number, infinite, or digits × 10^scale. */
  datatype Numeric = NaN | Infinite | Finite(digits: nat, scale: int)

  function Pow10(n: nat): (r: nat)
    ensures r >= 1
  {
    if n == 0 then 1 else 10 * Pow10(n - 1)
  }

  predicate AllDigits(s: string)
  {
    forall k :: 0 <= k < |s| ==> IsDigit(s[k])
  }

  /** The value of a run of decimal digits. */
  function DecimalValue(s: string): nat
    requires AllDigits(s)
    decreases |s|
  {
    if s == [] then 0 else 10 * DecimalValue(s[..|s| - 1]) + (s[|s| - 1] as int - '0' as int)
  }

  /** The value of a hexadecimal, octal or binary digit, if `c` is one in that radix. */
  function RadixDigit(c: char, radix: nat): Option<nat>
  {
    var d := if '0' <= c <= '9' then c as int - '0' as int
             else if 'a' <= c <= 'f' then c as int - 'a' as int + 10
             else if 'A' <= c <= 'F' then c as int - 'A' as int + 10
             else 16;
    if d < radix then Some(d) else None
  }

  /** The radix a `0x`, `0o` or `0b` prefix selects, or 0. */
  function RadixOf(c: char): nat
  {
    if c == 'x' || c == 'X' then 16 else if c == 'o' || c == 'O' then 8
    else if c == 'b' || c == 'B' then 2 else 0
  }

  function RadixValue(s: string, radix: nat): Option<nat>
    decreases |s|
  {
    if s == [] then Some(0)
    else match (RadixValue(s[..|s| - 1], radix), RadixDigit(s[|s| - 1], radix))
      case (Some(v), Some(d)) => Some(v * radix + d)
      case _ => None
  }

  /** The first index of a character of the set. */
  function IndexOf(s: string, cs: set<char>): (r: Option<nat>)
    ensures r.Some? ==> r.value < |s| && s[r.value] in cs && forall k :: 0 <= k < r.value ==> s[k] !in cs
    ensures r.None? ==> forall k :: 0 <= k < |s| ==> s[k] !in cs
    decreases |s|
  {
    if s == [] then None
    else if s[0] in cs then Some(0)
    else match IndexOf(s[1..], cs)
      case None => None
      case Some(i) => Some(i + 1)
  }

  /** An exponent after `e`: an optional sign, then digits. */
  function Exponent(x: string): Option<int>
  {
    if |x| > 0 && (x[0] == '+' || x[0] == '-') then
      if |x| > 1 && AllDigits(x[1..]) then
        var v: int := DecimalValue(x[1..]);
        Some(if x[0] == '-' then -v else v)
      else None
    else if |x| > 0 && AllDigits(x) then Some(DecimalValue(x))
    else None
  }

  /** Digits with an optional decimal point: their value and how many follow the point. */
  function Mantissa(m: string): Option<(nat, nat)>
  {
    var dot := IndexOf(m, {'.'});
    var whole := if dot.Some? then m[..dot.value] else m;
    var fraction := if dot.Some? then m[dot.value + 1..] else "";
    if !AllDigits(whole) || !AllDigits(fraction) || |whole| + |fraction| == 0 then None
    else Some((DecimalValue(whole + fraction), |fraction|))
  }

  function Scaled(mantissa: Option<(nat, nat)>, exponent: Option<int>): Numeric
  {
    if mantissa.None? || exponent.None? then NaN
    else Finite(mantissa.value.0, exponent.value - mantissa.value.1)
  }

  /** An unsigned decimal literal: `Infinity`, or digits with an optional point and exponent. */
  function UnsignedDecimal(u: string): Numeric
  {
    if u == "Infinity" then Infinite
    else match IndexOf(u, {'e', 'E'})
      case None => Scaled(Mantissa(u), Some(0))
      case Some(e) => Scaled(Mantissa(u[..e]), Exponent(u[e + 1..]))
  }

  /** ECMAScript's conversion of a string to a number (`+text`), on exact values. */
  function ToNumeric(text: string): Numeric
  {
    NumericLiteral(Trim(text))
  }

  /** A trimmed numeric literal: empty, `0x`/`0o`/`0b` digits, or a signed decimal. */
  function NumericLiteral(t: string): Numeric
  {
    if t == "" then Finite(0, 0)
    else if |t| >= 2 && t[0] == '0' && RadixOf(t[1]) > 0 then
      match RadixValue(t[2..], RadixOf(t[1]))
      case Some(v) => if |t| > 2 then Finite(v, 0) else NaN
      case None => NaN
    else if t[0] == '+' || t[0] == '-' then UnsignedDecimal(t[1..])
    else UnsignedDecimal(t)
  }

  /** `Number.isInteger(+text)` */
  predicate IsIntegerText(text: string)
  {
    var n := ToNumeric(text);
    n.Finite? && (n.scale >= 0 || n.digits % Pow10(-n.scale) == 0)
  }

  lemma TrimUnspaced(s: string)
    requires s != [] && !IsJsSpace(s[0]) && !IsJsSpace(s[|s| - 1])
    ensures Trim(s) == s
  {
    assert TrimStart(s) == s;
  }

  lemma NoneOf(s: string, cs: set<char>)
    requires forall k :: 0 <= k < |s| ==> s[k] !in cs
    ensures IndexOf(s, cs).None?
  {
  }

  /** A run of digits is read as its decimal value. */
  lemma UnsignedDigits(digits: string)
    requires |digits| > 0 && AllDigits(digits)
    ensures UnsignedDecimal(digits) == Finite(DecimalValue(digits), 0)
  {
    assert digits[0] != 'I';
    NoneOf(digits, {'e', 'E'});
    NoneOf(digits, {'.'});
    assert digits + "" == digits;
  }

  lemma LiteralOfDigits(digits: string)
    requires |digits| > 0 && AllDigits(digits)
    ensures NumericLiteral(digits) == UnsignedDecimal(digits)
  {
    assert digits[0] != '+' && digits[0] != '-';
    assert |digits| >= 2 ==> RadixOf(digits[1]) == 0;
  }

  lemma LiteralOfSigned(sign: string, digits: string)
    requires sign == "+" || sign == "-"
    requires |digits| > 0 && AllDigits(digits)
    ensures NumericLiteral(sign + digits) == UnsignedDecimal(digits)
  {
    var s := sign + digits;
    assert s[1..] == digits;
    assert s[0] != '0';
  }

  /** An optionally signed run of digits reads as an integer. */
  lemma SignedDigitsAreIntegers(sign: string, digits: string)
    requires sign == "" || sign == "+" || sign == "-"
    requires |digits| > 0 && AllDigits(digits)
    ensures IsIntegerText(sign + digits)
  {
    var s := sign + digits;
    assert s[|s| - 1] == digits[|digits| - 1];
    assert s[0] == '+' || s[0] == '-' || IsDigit(s[0]);
    TrimUnspaced(s);
    UnsignedDigits(digits);
    if sign == "" {
      assert s == digits;
      LiteralOfDigits(digits);
    } else {
      LiteralOfSigned(sign, digits);
    }
  }

  lemma DecimalValueAppend(a: string, b: string)
    requires AllDigits(a) && AllDigits(b)
    ensures AllDigits(a + b)
    ensures DecimalValue(a + b) == DecimalValue(a) * Pow10(|b|) + DecimalValue(b)
    decreases |b|
  {
    if b == [] {
      assert a + b == a;
    } else {
      var b' := b[..|b| - 1];
      var d := b[|b| - 1] as int - '0' as int;
      assert (a + b)[..|a + b| - 1] == a + b';
      assert (a + b)[|a + b| - 1] == b[|b| - 1];
      DecimalValueAppend(a, b');
      var x := DecimalValue(a);
      var y := DecimalValue(b');
      var p := Pow10(|b'|);
      assert DecimalValue(a + b) == 10 * DecimalValue(a + b') + d;
      assert DecimalValue(b) == 10 * y + d;
      assert Pow10(|b|) == 10 * p;
      Regroup(x, p, y, d);
    }
  }

  lemma Regroup(x: int, p: int, y: int, d: int)
    ensures 10 * (x * p + y) + d == x * (10 * p) + (10 * y + d)
  {
  }

  /** The mantissa of digits, a point, and digits. */
  lemma MantissaWithPoint(whole: string, fraction: string)
    requires AllDigits(whole) && AllDigits(fraction) && |fraction| > 0
    ensures Mantissa(whole + "." + fraction) == Some((DecimalValue(whole + fraction), |fraction|))
  {
    var s := whole + "." + fraction;
    var dot := IndexOf(s, {'.'});
    assert s[|whole|] == '.';
    assert dot.Some?;
    forall k | 0 <= k < |whole| ensures s[k] != '.' {
      assert s[k] == whole[k];
    }
    assert dot.value == |whole|;
    assert s[..|whole|] == whole && s[|whole| + 1..] == fraction;
  }

  /** The text of a decimal with a fraction and no exponent. */
  lemma DecimalFraction(whole: string, fraction: string)
    requires AllDigits(whole) && AllDigits(fraction) && |fraction| > 0
    ensures ToNumeric(whole + "." + fraction) == Finite(DecimalValue(whole + fraction), -|fraction|)
  {
    var s := whole + "." + fraction;
    forall k | 0 <= k < |s| ensures s[k] == '.' || IsDigit(s[k]) {
      if k < |whole| {
        assert s[k] == whole[k];
      } else if k > |whole| {
        assert s[k] == fraction[k - |whole| - 1];
      }
    }
    TrimUnspaced(s);
    assert s[0] != '+' && s[0] != '-';
    assert |s| >= 2 ==> RadixOf(s[1]) == 0;
    assert NumericLiteral(s) == UnsignedDecimal(s);
    assert s[0] != 'I';
    NoneOf(s, {'e', 'E'});
    MantissaWithPoint(whole, fraction);
  }

  lemma MultipleOfTen(x: nat, p: nat)
    requires p >= 1
    ensures x % (10 * p) == 0 ==> x % 10 == 0
  {
    if x % (10 * p) == 0 {
      var m := x / (10 * p);
      assert x == (10 * p) * m;
      assert x == 10 * (p * m);
    }
  }

  /** A number not divisible by ten is not divisible by any positive power of ten. */
  lemma NotMultipleOfPower(x: nat, n: nat)
    requires x % 10 != 0 && n >= 1
    ensures x % Pow10(n) != 0
  {
    MultipleOfTen(x, Pow10(n - 1));
  }

  lemma DigitsConcat(a: string, b: string)
    requires AllDigits(a) && AllDigits(b) && |b| > 0
    ensures AllDigits(a + b) && (a + b)[|a + b| - 1] == b[|b| - 1]
  {
    forall k | 0 <= k < |a + b| ensures IsDigit((a + b)[k]) {
      if k >= |a| { assert (a + b)[k] == b[k - |a|]; }
    }
  }

  /** The last digit of a run is its value modulo ten. */
  lemma LastDigit(w: string)
    requires |w| > 0 && AllDigits(w)
    ensures DecimalValue(w) % 10 == w[|w| - 1] as int - '0' as int
  {
    var q := DecimalValue(w[..|w| - 1]);
    var d := w[|w| - 1] as int - '0' as int;
    assert DecimalValue(w) == 10 * q + d;
  }

  /** The value of digits, a point, and digits ending in a non-zero digit. */
  lemma FractionValue(whole: string, fraction: string) returns (v: nat)
    requires AllDigits(whole) && AllDigits(fraction)
    requires |fraction| > 0 && fraction[|fraction| - 1] != '0'
    ensures ToNumeric(whole + "." + fraction) == Finite(v, -|fraction|) && v % 10 != 0
  {
    DecimalFraction(whole, fraction);
    DigitsConcat(whole, fraction);
    LastDigit(whole + fraction);
    v := DecimalValue(whole + fraction);
  }

  /**
   * A decimal whose fraction ends in a non-zero digit, with no exponent,
   * is not an integer: "2.5" is refused as a bound.
   */
  lemma FractionIsNotInteger(whole: string, fraction: string)
    requires AllDigits(whole) && AllDigits(fraction)
    requires |fraction| > 0 && fraction[|fraction| - 1] != '0'
    ensures !IsIntegerText(whole + "." + fraction)
  {
    var v := FractionValue(whole, fraction);
    NotMultipleOfPower(v, |fraction|);
  }

  const ORDER_ATTRIBUTES: set<string> := {"rotate_rows", "randomize_rows", "rotate_columns", "randomize_columns"}
  const BOUND_ATTRIBUTES: set<string> := {"minimal_selections", "maximum_selections", "minimal_value", "maximum_value"}

  /** `checkAttributeValue` on one attribute. */
  function CheckValue(a: Attr): Outcome
  {
    if a.name in ORDER_ATTRIBUTES then
      if a.value.Some? && !a.value.value.SimpleStatement? then
        Fail(ErrorAt(a.name + " either does not have value or has a simple expression as value", a.end))
      else Pass
    else if a.name in BOUND_ATTRIBUTES then
      match a.value
      case Some(Str(_, v, _)) =>
        if IsIntegerText(v) then Pass
        else Fail(ErrorAt("cannot parse the value of " + a.name + " to an integer", a.start))
      case Some(SimpleStatement(_, _, _)) => Pass
      case _ => Fail(ErrorAt(a.name + " needs to have a string or a simple expression as value", a.start))
    else if a.name == "data" then
      // `s_error` is not defined anywhere: calling it throws
      if a.value.Some? && a.value.value.Str? then Pass
      else Fail(Fault("ReferenceError: s_error is not defined"))
    else Pass
  }

  /** What each attribute's value must be, stated per attribute kind. */
  predicate ValueRule(a: Attr)
  {
    (a.name in ORDER_ATTRIBUTES ==> a.value.None? || a.value.value.SimpleStatement?)
    && (a.name in BOUND_ATTRIBUTES ==>
          a.value.Some? && (a.value.value.SimpleStatement?
                            || (a.value.value.Str? && IsIntegerText(a.value.value.value))))
    && (a.name == "data" ==> a.value.Some? && a.value.value.Str?)
  }

  lemma CheckValueIff(a: Attr)
    ensures CheckValue(a).Pass? <==> ValueRule(a)
  {
  }

  /** Order attributes report at their end token, the others at their start. */
  lemma CheckValuePosition(a: Attr)
    requires CheckValue(a).Fail? && CheckValue(a).error.ParseError?
    ensures a.name in ORDER_ATTRIBUTES ==> CheckValue(a).error.line == a.end.line && CheckValue(a).error.pos == a.end.pos
    ensures a.name !in ORDER_ATTRIBUTES ==>
              a.name in BOUND_ATTRIBUTES && CheckValue(a).error.line == a.start.line && CheckValue(a).error.pos == a.start.pos
  {
  }

  // ---------------------------------------------------------------------
  // The two walks (SemanticChecking.ts:223-224)

  /** `checkQuestionStructure` as a walker callback. */
  function StructureCallback(v: Visit): Outcome
  {
    match v
    case VComponent(c) => if c.Question? then CheckQuestion(c) else Pass
    case VOption(o) => CheckOption(o)
    case _ => Pass
  }

  /** `checkAttributeValue` as a walker callback. */
  function ValueCallback(v: Visit): Outcome
  {
    match v
    case VAttribute(a) => CheckValue(a)
    case _ => Pass
  }

  function SortOpt(o: Opt): (r: Opt)
    ensures r.Row? == o.Row? && r.start == o.start && r.texts == o.texts && r.end == o.end
    ensures r.attributes == SortByName(o.attributes)
  {
    match o
    case Row(start, texts, attributes, end) => Row(start, texts, SortByName(attributes), end)
    case Column(start, texts, attributes, end) => Column(start, texts, SortByName(attributes), end)
  }

  /**
   * The survey as the first walk leaves it: every question's and every
   * option's attributes sorted by name; sections are not checked, so not
   * sorted.
   */
  function SortAll(root: seq<Component>): (r: seq<Component>)
    ensures |r| == |root|
    ensures forall k :: 0 <= k < |root| ==> SortedComponent(root[k], r[k])
  {
    seq(|root|, k requires 0 <= k < |root| =>
      match root[k]
      case Question(start, texts, attributes, rows, columns, end) =>
        Question(start, texts, SortByName(attributes),
                 seq(|rows|, i requires 0 <= i < |rows| => SortOpt(rows[i])),
                 seq(|columns|, i requires 0 <= i < |columns| => SortOpt(columns[i])), end)
      case other => other)
  }

  predicate SortedComponent(c: Component, d: Component)
  {
    match c
    case Question(_, _, attributes, rows, columns, _) =>
      d.Question? && d.texts == c.texts && d.attributes == SortByName(attributes)
      && |d.rows| == |rows| && (forall i :: 0 <= i < |rows| ==> d.rows[i] == SortOpt(rows[i]))
      && |d.columns| == |columns| && (forall i :: 0 <= i < |columns| ==> d.columns[i] == SortOpt(columns[i]))
    case _ => d == c
  }

  /** `SemanticChecking(root)`: the structure walk, then the value walk. */
  function SemanticCheck(root: seq<Component>): Outcome
  {
    var first := Run(WalkRoot(root), Some(StructureCallback), None);
    if first.Fail? then first
    else Run(WalkRoot(SortAll(root)), Some(ValueCallback), None)
  }

  // ---------------------------------------------------------------------
  // The whole check, declaratively

  predicate AttrOk(a: Attr)
  {
    ValueRule(a) && (a.value.Some? ==> Complete(a.value.value))
  }

  predicate AllAttrOk(s: seq<Attr>)
  {
    forall k :: 0 <= k < |s| ==> AttrOk(s[k])
  }

  predicate OptOk(o: Opt)
  {
    OptionRules(o) && AllComplete(o.texts) && AllAttrOk(o.attributes)
  }

  predicate AllOptOk(os: seq<Opt>)
  {
    forall k :: 0 <= k < |os| ==> OptOk(os[k])
  }

  /** A component that passes both walks. */
  predicate ComponentOk(c: Component)
  {
    match c
    case Question(_, texts, attributes, rows, columns, _) =>
      QuestionRules(c) && AllComplete(texts) && AllAttrOk(attributes) && AllOptOk(rows) && AllOptOk(columns)
    case Section(_, attributes, _) => AllAttrOk(attributes)
    case Interlude(_, body, _) => AllComplete(body)
  }

  /** Whether every attribute of a list passes a test does not depend on their order. */
  lemma SortKeepsAll(s: seq<Attr>, p: Attr -> bool)
    ensures (forall k :: 0 <= k < |s| ==> p(s[k])) <==> (forall k :: 0 <= k < |SortByName(s)| ==> p(SortByName(s)[k]))
  {
    var t := SortByName(s);
    SortPermutes(s);
    forall k | 0 <= k < |t| ensures t[k] in multiset(s) { assert t[k] in multiset(t); }
    forall k | 0 <= k < |s| ensures s[k] in multiset(t) { assert s[k] in multiset(s); }
  }

  /** An attribute passes the structure walk when its value is complete, the value walk when it is ok. */
  lemma AttrWalks(a: Attr)
    ensures AttrPasses(a, Some(StructureCallback)) <==> (a.value.Some? ==> Complete(a.value.value))
    ensures AttrPasses(a, Some(ValueCallback)) <==> AttrOk(a)
  {
    CheckValueIff(a);
  }

  /** The attributes of a node pass both walks, the second one sorted, iff each is ok. */
  lemma AttrsWalk(attrs: seq<Attr>)
    ensures AllAttrsPass(attrs, Some(StructureCallback)) && AllAttrsPass(SortByName(attrs), Some(ValueCallback))
            <==> AllAttrOk(attrs)
  {
    SortKeepsAll(attrs, a => AttrPasses(a, Some(ValueCallback)));
    forall a: Attr ensures AttrPasses(a, Some(ValueCallback)) <==> AttrOk(a) {
      AttrWalks(a);
    }
    forall a: Attr ensures AttrOk(a) ==> AttrPasses(a, Some(StructureCallback)) {
      AttrWalks(a);
    }
  }

  lemma OptWalks(o: Opt)
    ensures OptPasses(o, Some(StructureCallback)) && OptPasses(SortOpt(o), Some(ValueCallback)) <==> OptOk(o)
  {
    CheckOptionIff(o);
    AttrsWalk(o.attributes);
  }

  lemma OptsWalk(os: seq<Opt>, sorted: seq<Opt>)
    requires |sorted| == |os| && forall i :: 0 <= i < |os| ==> sorted[i] == SortOpt(os[i])
    ensures AllOptsPass(os, Some(StructureCallback)) && AllOptsPass(sorted, Some(ValueCallback))
            <==> AllOptOk(os)
  {
    forall k | 0 <= k < |os|
      ensures OptPasses(os[k], Some(StructureCallback)) && OptPasses(sorted[k], Some(ValueCallback)) <==> OptOk(os[k])
    {
      OptWalks(os[k]);
    }
  }

  lemma QuestionStructure(c: Component)
    requires c.Question?
    ensures ComponentPasses(c, Some(StructureCallback)) <==>
            QuestionRules(c) && AllComplete(c.texts) && AllAttrsPass(c.attributes, Some(StructureCallback))
            && AllOptsPass(c.rows, Some(StructureCallback)) && AllOptsPass(c.columns, Some(StructureCallback))
  {
    assert StructureCallback(VComponent(c)) == CheckQuestion(c);
    CheckQuestionIff(c);
  }

  lemma QuestionValue(d: Component)
    requires d.Question?
    ensures ComponentPasses(d, Some(ValueCallback)) <==>
            AllComplete(d.texts) && AllAttrsPass(d.attributes, Some(ValueCallback))
            && AllOptsPass(d.rows, Some(ValueCallback)) && AllOptsPass(d.columns, Some(ValueCallback))
  {
  }

  lemma QuestionWalks(c: Component, d: Component)
    requires c.Question? && SortedComponent(c, d)
    ensures ComponentPasses(c, Some(StructureCallback)) && ComponentPasses(d, Some(ValueCallback))
            <==> ComponentOk(c)
  {
    QuestionStructure(c);
    QuestionValue(d);
    AttrsWalk(c.attributes);
    OptsWalk(c.rows, d.rows);
    OptsWalk(c.columns, d.columns);
  }

  lemma ComponentWalks(c: Component, d: Component)
    requires SortedComponent(c, d)
    ensures ComponentPasses(c, Some(StructureCallback)) && ComponentPasses(d, Some(ValueCallback))
            <==> ComponentOk(c)
  {
    match c {
      case Question(_, _, _, _, _, _) => QuestionWalks(c, d);
      case Section(_, attributes, _) =>
        forall a: Attr ensures AttrPasses(a, Some(ValueCallback)) <==> AttrOk(a) {
          AttrWalks(a);
        }
      case Interlude(_, _, _) =>
    }
  }

  /**
   * The semantic check passes exactly when every component is well formed:
   * questions and options obey their rules, every attribute value fits
   * its attribute, and no declaration lacks an initialiser. The last part
   * holds of interludes whose statements the walker reaches, as it does in
   * the tree the model builds.
   */
  lemma SemanticCheckIff(root: seq<Component>)
    ensures SemanticCheck(root).Pass? <==> forall k :: 0 <= k < |root| ==> ComponentOk(root[k])
  {
    assert IgnoresNodes(Some(StructureCallback));
    assert IgnoresNodes(Some(ValueCallback));
    RunWalkRoot(root, Some(StructureCallback));
    RunWalkRoot(SortAll(root), Some(ValueCallback));
    forall k | 0 <= k < |root|
      ensures ComponentPasses(root[k], Some(StructureCallback)) && ComponentPasses(SortAll(root)[k], Some(ValueCallback))
              <==> ComponentOk(root[k])
    {
      ComponentWalks(root[k], SortAll(root)[k]);
    }
  }
}
