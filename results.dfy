/** Failure-compatible wrappers and the assembler's error kinds. */
module Results {

  datatype Option<+T> = None | Some(value: T)

  /** Why an assembly run stops. The source throws a RuntimeException in each case. */
  datatype Error =
    | Format(line: string)       // an '=' or ';' split that does not give exactly two parts
    | UnknownDest(line: string)  // the part before '=' is not a dest mnemonic
    | UnknownJump(line: string)  // the part after ';' is not a jump mnemonic
    | UnknownComp(line: string)  // what is left between '=' and ';' is not a comp mnemonic
    | Range(value: int)          // the binary form of an address is longer than the field

  datatype Result<+T> = Ok(value: T) | Err(error: Error) {
    predicate IsFailure() { Err? }

    function PropagateFailure<U>(): Result<U>
      requires Err?
    {
      Err(error)
    }

    function Extract(): T
      requires Ok?
    {
      value
    }
  }
}
