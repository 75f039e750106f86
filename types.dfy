/** Shared value types of the calculator (types.ts). */
module Types {

  datatype Option<+T> = None | Some(value: T)

  /** The binary operators of the `Operation` union; its `null` member is `None`. */
  datatype Op = Add | Sub | Mul | Div | Pow

  /** The character an operator is written with in expressions. */
  function OpSymbol(op: Op): char
  {
    match op
    case Add => '+'
    case Sub => '-'
    case Mul => '*'
    case Div => '/'
    case Pow => '^'
  }

  /** `" " + op + " "`, the token that follows an operand in an expression. */
  function OpToken(op: Op): (t: string)
    ensures |t| == 3 && t[0] == ' ' && t[2] == ' '
  {
    [' ', OpSymbol(op), ' ']
  }

  /** A completed calculation as the history keeps it (id and timestamp are not modelled). */
  datatype Calculation = Calculation(expression: string, result: string)
}
