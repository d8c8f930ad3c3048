/**
 * The two kinds of Ruby value that reach the rules code as names and
 * ratings: Symbols (`:d6`, `:fighting`) and Strings (`"Fighting"`).
 */
module Values {

  datatype Value = Sym(id: string) | Str(text: string) {

    /** Ruby's `to_s`: a Symbol's name, or the String itself. */
    function ToS(): string {
      match this
      case Sym(id) => id
      case Str(text) => text
    }
  }

  /** The Ruby exceptions the modelled operations can raise. */
  datatype RubyError =
    | TypeError      // `respond_to?(nil)`: nil is not a symbol
    | NoMethodError  // a method called on nil
}
