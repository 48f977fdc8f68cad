/**
 * The glob search evaluator: each term of a search expression selects the values of the
 * tags its glob pattern accepts, and NOT, AND and OR combine those value sets. NOT is taken
 * relative to every tagged value that is not an engine instruction.
 *
 * The engine's reserved prefixes and marker (GlobEngineConstants is not part of this model),
 * glob matching itself (GlobPattern) and the source of deferred data are parameters.
 */
module GlobSearch {
  import opened Wrappers
  import opened Strings

  /** A tagged value: a string, or some other object, told apart by its identity. */
  datatype Value = Str(s: string) | Other(id: int)

  /** The reserved strings of the glob engine. */
  datatype Constants = Constants(instructionPrefix: string, deferredTokenPrefix: string,
                                 deferredDataMarker: Value)

  /** A search expression: an AND expression followed by OR clauses. */
  datatype Expr = Expr(andExpr: AndExpr, orClauses: seq<AndExpr>)
  /** An AND expression: one or more unary expressions. */
  datatype AndExpr = And(first: Unary, rest: seq<Unary>)
  /** A glob match term, a negation, or an expression nested inside a unary one. */
  datatype Unary = Glob(pattern: string) | Not(operand: Unary) | Nested(e: Expr)

  /** Deferred tagged data: for each token, the tagged data it stands for. */
  type Deferred = Option<map<string, map<string, set<Value>>>>

  /** extractTextAfter: the rest of a string value after `prefix`, for a string value that
    * starts with it; otherwise nothing. */
  function ExtractTextAfter(v: Value, prefix: string): (r: Option<string>)
    ensures r.Some? <==> v.Str? && StartsWith(v.s, prefix)
    ensures r.Some? ==> v.s == prefix + r.value
  {
    if v.Str? && StartsWith(v.s, prefix) then Some(v.s[|prefix|..]) else None
  }

  predicate IsInstruction(k: Constants, v: Value)
  {
    ExtractTextAfter(v, k.instructionPrefix).Some?
  }

  /** The non-empty deferred token a value carries, if any. */
  predicate HasToken(k: Constants, v: Value)
  {
    var t := ExtractTextAfter(v, k.deferredTokenPrefix); t.Some? && |t.value| > 0
  }

  function Token(k: Constants, v: Value): string
    requires HasToken(k, v)
  {
    ExtractTextAfter(v, k.deferredTokenPrefix).value
  }

  /** The values the lazy data of a token holds for `tag`. */
  function Lazy(data: map<string, map<string, set<Value>>>, token: string, tag: string): set<Value>
  {
    if token in data && tag in data[token] then data[token][tag] else {}
  }

  /** Every tagged value that is not an engine instruction. */
  function AllValues(k: Constants, tagged: map<string, set<Value>>): set<Value>
  {
    set t, v | t in tagged && v in tagged[t] && !IsInstruction(k, v) :: v
  }

  /** expandDeferredValues, as a set: each deferred token is replaced by the lazy data for
    * the same tag, instructions are dropped, and the other values stay. */
  function Expand(k: Constants, deferred: Deferred, tag: string, values: set<Value>): set<Value>
  {
    if deferred.None? || k.deferredDataMarker !in values then values
    else set v, x | v in values && x in ExpandOne(k, deferred.value, tag, v) :: x
  }

  /** What one value becomes once deferral is on: the lazy data of its token for `tag`,
    * itself when it carries no token and is no instruction, and nothing otherwise. */
  function ExpandOne(k: Constants, data: map<string, map<string, set<Value>>>, tag: string, v: Value): set<Value>
  {
    if HasToken(k, v) then Lazy(data, Token(k, v), tag)
    else if IsInstruction(k, v) then {}
    else {v}
  }

  /** A glob term: the union of the expanded values of every tag the pattern accepts. */
  function GlobTerm(k: Constants, deferred: Deferred, matches: (string, string) -> bool,
                    tagged: map<string, set<Value>>, pattern: string): set<Value>
  {
    set t, x | t in tagged && matches(pattern, t) && x in Expand(k, deferred, t, tagged[t]) :: x
  }

  /** The evaluator's inputs. */
  datatype Context = Context(k: Constants, tagged: map<string, set<Value>>, deferred: Deferred,
                             matches: (string, string) -> bool)

  function EvalUnary(c: Context, u: Unary): set<Value>
    decreases u, 1
  {
    match u
    case Glob(p) => GlobTerm(c.k, c.deferred, c.matches, c.tagged, p)
    case Not(v) => AllValues(c.k, c.tagged) - EvalUnary(c, v)
    case Nested(e) => EvalExpr(c, e)
  }

  /** The intersection of the first term and the next `i` terms of an AND expression. */
  function EvalAndUpTo(c: Context, a: AndExpr, i: nat): set<Value>
    requires i <= |a.rest|
    decreases a, i
  {
    if i == 0 then EvalUnary(c, a.first)
    else EvalAndUpTo(c, a, i - 1) * EvalUnary(c, a.rest[i - 1])
  }

  function EvalAnd(c: Context, a: AndExpr): set<Value>
    decreases a, |a.rest| + 1
  {
    EvalAndUpTo(c, a, |a.rest|)
  }

  /** The union of the AND expression and the first `j` OR clauses. */
  function EvalExprUpTo(c: Context, e: Expr, j: nat): set<Value>
    requires j <= |e.orClauses|
    decreases e, j
  {
    if j == 0 then EvalAnd(c, e.andExpr)
    else EvalExprUpTo(c, e, j - 1) + EvalAnd(c, e.orClauses[j - 1])
  }

  function EvalExpr(c: Context, e: Expr): set<Value>
    decreases e, |e.orClauses| + 1
  {
    EvalExprUpTo(c, e, |e.orClauses|)
  }

  /** AND yields exactly the values every one of its terms yields. */
  lemma {:induction false} AndIsIntersection(c: Context, a: AndExpr, i: nat, x: Value)
    requires i <= |a.rest|
    ensures x in EvalAndUpTo(c, a, i) <==>
              x in EvalUnary(c, a.first) && forall j :: 0 <= j < i ==> x in EvalUnary(c, a.rest[j])
  {
    if i > 0 {
      AndIsIntersection(c, a, i - 1, x);
    }
  }

  /** OR yields exactly the values the AND expression or one of the OR clauses yields. */
  lemma {:induction false} OrIsUnion(c: Context, e: Expr, j: nat, x: Value)
    requires j <= |e.orClauses|
    ensures x in EvalExprUpTo(c, e, j) <==>
              x in EvalAnd(c, e.andExpr) || exists m :: 0 <= m < j && x in EvalAnd(c, e.orClauses[m])
  {
    if j > 0 {
      OrIsUnion(c, e, j - 1, x);
      if x in EvalAnd(c, e.orClauses[j - 1]) {
        assert 0 <= j - 1 < j && x in EvalAnd(c, e.orClauses[j - 1]);
      }
    }
  }

  /** NOT of NOT gives back the operand's non-instruction tagged values, and a NOT never
    * yields an instruction or an untagged value. */
  lemma NotOfNot(c: Context, u: Unary)
    ensures EvalUnary(c, Not(Not(u))) == AllValues(c.k, c.tagged) * EvalUnary(c, u)
    ensures forall x :: x in EvalUnary(c, Not(u)) ==>
              !IsInstruction(c.k, x) && exists t :: t in c.tagged && x in c.tagged[t]
  {
  }

  /** The values of `tagged` that are not instructions, gathered tag by tag. */
  method CollectAllValues(k: Constants, tagged: map<string, set<Value>>) returns (all: set<Value>)
    ensures all == AllValues(k, tagged)
  {
    all := {};
    var rest := tagged.Keys;
    while rest != {}
      invariant rest <= tagged.Keys
      invariant all == set t, v | t in tagged && t !in rest && v in tagged[t] && !IsInstruction(k, v) :: v
      decreases rest
    {
      var t :| t in rest;
      all := AddNonInstructions(k, all, tagged[t]);
      rest := rest - {t};
    }
  }

  /** `acc` with each value of `values` that is not an instruction added. */
  method AddNonInstructions(k: Constants, acc: set<Value>, values: set<Value>) returns (r: set<Value>)
    ensures r == acc + set v | v in values && !IsInstruction(k, v)
  {
    r := acc;
    var rest := values;
    while rest != {}
      invariant rest <= values
      invariant r == acc + set v | v in values && v !in rest && !IsInstruction(k, v)
      decreases rest
    {
      var oneValue :| oneValue in rest;
      if !IsInstruction(k, oneValue) {
        r := r + {oneValue};
      }
      rest := rest - {oneValue};
    }
  }

  class GlobSearchEvaluator {
    const taggedValues: map<string, set<Value>>
    const deferredData: Deferred
    const constants: Constants
    const matches: (string, string) -> bool
    const allValues: set<Value>
    var result: set<Value>

    function Ctx(): Context
    {
      Context(constants, taggedValues, deferredData, matches)
    }

    /** allValues holds every tagged value that is not an instruction. */
    predicate Valid()
    {
      allValues == AllValues(constants, taggedValues)
    }

    /** The evaluator over the tagged data: allValues is every tagged value that is not an
      * instruction, and the initial result is allValues. */
    constructor (taggedData: map<string, set<Value>>, deferred: Deferred, k: Constants,
                 globTest: (string, string) -> bool)
      ensures Ctx() == Context(k, taggedData, deferred, globTest)
      ensures Valid() && allValues == AllValues(k, taggedData) && result == allValues
    {
      taggedValues, deferredData, constants, matches := taggedData, deferred, k, globTest;
      var all := CollectAllValues(k, taggedData);
      allValues := all;
      result := all;
    }

    /** expandDeferredValues: the values unchanged when nothing is deferred; otherwise each
      * deferred token replaced by the lazy data for the tag, and instructions dropped. */
    method ExpandDeferredValues(tag: string, values: set<Value>) returns (r: set<Value>)
      ensures r == Expand(constants, deferredData, tag, values)
    {
      if deferredData.None? || constants.deferredDataMarker !in values {
        return values;
      }
      var data := deferredData.value;
      r := {};
      var rest := values;
      while rest != {}
        invariant rest <= values
        invariant r == set v, x | v in values && v !in rest && x in ExpandOne(constants, data, tag, v) :: x
        decreases rest
      {
        var oneValue :| oneValue in rest;
        ghost var before := r;
        var token := ExtractTextAfter(oneValue, constants.deferredTokenPrefix);
        if token.Some? && |token.value| > 0 {
          if token.value in data {
            var lazyData := data[token.value];
            if tag in lazyData {
              r := r + lazyData[tag];
            }
          }
        } else if !IsInstruction(constants, oneValue) {
          r := r + {oneValue};
        }
        assert r == before + ExpandOne(constants, data, tag, oneValue);
        rest := rest - {oneValue};
      }
    }

    /** caseAGlobMatchTerm: the union of the expanded values of the accepted tags. */
    method CaseGlobMatchTerm(pattern: string)
      modifies this`result
      ensures result == GlobTerm(constants, deferredData, matches, taggedValues, pattern)
    {
      var r := {};
      var rest := taggedValues.Keys;
      while rest != {}
        invariant rest <= taggedValues.Keys
        invariant r == set t, x | t in taggedValues && t !in rest && matches(pattern, t) &&
                                  x in Expand(constants, deferredData, t, taggedValues[t]) :: x
        decreases rest
      {
        var tag :| tag in rest;
        if matches(pattern, tag) {
          var expanded := ExpandDeferredValues(tag, taggedValues[tag]);
          r := r + expanded;
        }
        rest := rest - {tag};
      }
      result := r;
    }

    /** A unary expression: a glob term, NOT (allValues minus the operand's result), or a
      * nested expression. */
    method ApplyUnary(u: Unary)
      requires Valid()
      modifies this`result
      ensures result == EvalUnary(Ctx(), u)
      decreases u, 1
    {
      match u
      case Glob(p) =>
        CaseGlobMatchTerm(p);
      case Not(v) =>
        ApplyUnary(v);
        result := allValues - result;
      case Nested(e) =>
        ApplyExpr(e);
    }

    /** caseAAndExpression: the first term, then the intersection with each further term. */
    method ApplyAnd(a: AndExpr)
      requires Valid()
      modifies this`result
      ensures result == EvalAnd(Ctx(), a)
      decreases a, 0
    {
      ApplyUnary(a.first);
      for i := 0 to |a.rest|
        invariant result == EvalAndUpTo(Ctx(), a, i)
      {
        var currentResult := result;
        ApplyUnary(a.rest[i]);
        result := result * currentResult;
      }
    }

    /** caseAExpression: the AND expression, then the union with each OR clause. */
    method ApplyExpr(e: Expr)
      requires Valid()
      modifies this`result
      ensures result == EvalExpr(Ctx(), e)
      decreases e, 0
    {
      ApplyAnd(e.andExpr);
      for j := 0 to |e.orClauses|
        invariant result == EvalExprUpTo(Ctx(), e, j)
      {
        var currentResult := result;
        ApplyAnd(e.orClauses[j]);
        result := result + currentResult;
      }
    }
  }
}
