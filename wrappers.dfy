/** Option and Result for the calculator's "null" returns and thrown exceptions. */
module Wrappers {

  datatype Option<+T> = None | Some(value: T)

  /** One constructor per throw site of the calculator's engine. */
  datatype Error =
    | KNotPositive              // Combinatorics: "Parameter must be a positive integer"
    | KExceedsPool              // DrawRandomSampleWithoutRept: "must not exceed the pool count"
    | EmptyPool                 // DrawRandomSampleWithRept on an empty pool (index out of range)
    | PosOutOfRange             // Shuffle(list, pos, count): "starting position is out of range"
    | CountOutOfRange           // Shuffle(list, pos, count): "count lands out of range"
    | NBelowTwo                 // GetPrimePowerDecomposition: "n must be >1."
    | NotPrimePower             // GetPrimePowerDecomposition: "This was not a Primepower."
    | DivisionByZeroPolynomial  // PolynomialQuotientRemainder, %, /
    | ZeroModulus               // GetInverseModulo: "Module cannot be the zero polynomial."
    | ZeroHasNoInverse          // GetInverseModulo: "The zero polynomial has no inverse."
    | NoLeadingTerm             // Lt / Lm of the zero polynomial
    | NullInverse               // Divide(f, g, h) when g has no inverse modulo h (null dereference)
    | NoIrreducible             // no monic candidate survived the trial divisions
    | NoPrimitiveElement        // First() found no primitive element

  datatype Result<+T> = Success(value: T) | Failure(error: Error)
}
