/** The pipeline's data: a `Type` entry per transformed declaration and the
    `Collection` holding all of them, keyed by symbol. */
module Structures {

  type Symbol = string

  datatype Option<T> = None | Some(value: T)

  /** One transformed type. Only `transformed` is ever reassigned; the
      other members are fixed when the entry is created. `typescriptName`
      stands for `getTypescriptName()`: a name fixed per entry that does not
      depend on `transformed`. */
  class Type {
    const symbol: Symbol
    const isInline: bool
    const missingSymbols: seq<Symbol>
    const typescriptName: string
    var transformed: string

    constructor (symbol: Symbol, isInline: bool, missingSymbols: seq<Symbol>,
                 typescriptName: string, transformed: string)
      ensures this.symbol == symbol && this.isInline == isInline
      ensures this.missingSymbols == missingSymbols
      ensures this.typescriptName == typescriptName
      ensures this.transformed == transformed
    {
      this.symbol := symbol;
      this.isInline := isInline;
      this.missingSymbols := missingSymbols;
      this.typescriptName := typescriptName;
      this.transformed := transformed;
    }
  }

  /** The first entry of `types` whose symbol is `symbol`, if any. */
  function FindIn(types: seq<Type>, symbol: Symbol): (r: Option<Type>)
    ensures r.Some? ==> r.value in types && r.value.symbol == symbol
    ensures r.None? <==> forall k :: 0 <= k < |types| ==> types[k].symbol != symbol
    decreases |types|
  {
    if types == [] then None
    else if types[0].symbol == symbol then Some(types[0])
    else FindIn(types[1..], symbol)
  }

  /** The ordered collection of all entries, keyed by symbol. */
  class Collection {
    var types: seq<Type>

    /** No two entries share a symbol (so no entry is listed twice). */
    ghost predicate Valid()
      reads this
    {
      forall i, j :: 0 <= i < j < |types| ==> types[i].symbol != types[j].symbol
    }

    constructor (types: seq<Type>)
      requires forall i, j :: 0 <= i < j < |types| ==> types[i].symbol != types[j].symbol
      ensures this.types == types
      ensures Valid()
    {
      this.types := types;
    }

    /** `find($symbol)`: the entry registered under `symbol`, or none. */
    function Find(symbol: Symbol): (r: Option<Type>)
      reads this
      ensures r.Some? ==> r.value in types && r.value.symbol == symbol
      ensures r.None? <==> forall k :: 0 <= k < |types| ==> types[k].symbol != symbol
    {
      FindIn(types, symbol)
    }
  }
}
