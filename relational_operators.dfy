/**
 * The relational operators of the data-expression compiler. Each operator compares two
 * SimpleData operands and yields one of two constant numbers: TRUE (1.0) or FALSE (0.0).
 * SimpleData's own equals/lessThan/greaterThan belong to the value classes and are given
 * here as a record of comparison functions.
 */
module RelationalOperators {
  import opened Wrappers

  const TRUE: real := 1.0
  const FALSE: real := 0.0

  /** SimpleData.equals, lessThan and greaterThan of the operand type. */
  datatype Comparisons<!D> = Comparisons(equals: (D, D) -> bool, lessThan: (D, D) -> bool, greaterThan: (D, D) -> bool)

  /** The operator instances; Base is BinaryRelationalOperator itself, without an override. */
  datatype Operator = Base | EQ | NEQ | LT | LTEQ | GT | GTEQ

  /** The `calc` of each operator on two non-null operands. */
  function Calc<D>(op: Operator, cmp: Comparisons<D>, left: D, right: D): bool
  {
    match op
    case Base => false
    case EQ => cmp.equals(left, right)
    case NEQ => !cmp.equals(left, right)
    case LT => cmp.lessThan(left, right)
    case LTEQ => cmp.lessThan(left, right) || cmp.equals(left, right)
    case GT => cmp.greaterThan(left, right)
    case GTEQ => cmp.greaterThan(left, right) || cmp.equals(left, right)
  }

  /** BinaryRelationalOperator.operate: FALSE for a null operand, else TRUE exactly when calc holds. */
  function Operate<D>(op: Operator, cmp: Comparisons<D>, left: Option<D>, right: Option<D>): (v: real)
    ensures v == TRUE || v == FALSE
    ensures (left.None? || right.None?) ==> v == FALSE
    ensures left.Some? && right.Some? ==> (v == TRUE <==> Calc(op, cmp, left.value, right.value))
  {
    if left.None? || right.None? then FALSE
    else if Calc(op, cmp, left.value, right.value) then TRUE
    else FALSE
  }

  lemma NullOperandIsFalse<D>(op: Operator, cmp: Comparisons<D>, x: Option<D>)
    ensures Operate(op, cmp, None, x) == FALSE && Operate(op, cmp, x, None) == FALSE
  {
  }

  lemma BaseCalcIsFalse<D>(cmp: Comparisons<D>, left: Option<D>, right: Option<D>)
    ensures Operate(Base, cmp, left, right) == FALSE
  {
  }

  lemma NeqNegatesEq<D>(cmp: Comparisons<D>, left: D, right: D)
    ensures Operate(NEQ, cmp, Some(left), Some(right)) == TRUE <==> Operate(EQ, cmp, Some(left), Some(right)) == FALSE
  {
  }

  lemma LteqIsLtOrEq<D>(cmp: Comparisons<D>, left: Option<D>, right: Option<D>)
    ensures Operate(LTEQ, cmp, left, right) == TRUE <==>
      (Operate(LT, cmp, left, right) == TRUE || Operate(EQ, cmp, left, right) == TRUE)
  {
  }

  lemma GteqIsGtOrEq<D>(cmp: Comparisons<D>, left: Option<D>, right: Option<D>)
    ensures Operate(GTEQ, cmp, left, right) == TRUE <==>
      (Operate(GT, cmp, left, right) == TRUE || Operate(EQ, cmp, left, right) == TRUE)
  {
  }
}
