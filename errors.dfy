/** The error messages the interpreter, the runtime and the code generator
    return as `Err(String)`.  Where the source formats a rendered node into
    the message, the constructor keeps only the kind of failure, because
    rendering nodes as text is not part of this model. */
module Errors {

  datatype Error =
    | FewerParams                      // "Fewer parameters than requested"
    | MoreParams                       // "More parameters than requested"
    | NotAProperList                   // "... is not a proper list"
    | NotANumber                       // "... is not a number"
    | NotAPair                         // "... is not a pair"
    | NotASymbol                       // "... is not a symbol"
    | NotAUserSymbol                   // "... is not a user-defined symbol"
    | NotAClosure                      // "... is not a closure"
    | NotAPattern                      // a lambda parameter that is not a user symbol
    | PatternMismatch                  // "Pattern matching failed"
    | CannotBeHead                     // "... can not be the head of a list"
    | ExpectedTwoIntegers              // remainder / quotient on non-integers
    | ArityMismatch(expected: nat, found: nat)
    | SymbolNotFound(name: string)     // "Symbol ... not found"
    | NotDefined(name: string)         // set-car! / set-cdr! on an unbound name
    | Unsupported                      // an operator the implementation has no case for
    | Unreachable                      // `unreachable!()` / `panic!` in the source
    | OutOfFuel                        // the model's step budget ran out
}
