/** The parts of the program representation that the modelled analyses read and write. */
module Ir {

  /** The name a frontend gave a block, a value, a call or a function. */
  datatype Id = Id(name: string)

  /** The id of nothing: a field the frontend left out. */
  const NOTHING := Id("")

  /** A source position. */
  datatype Loc = Loc(file: string, line: int, column: int)

  /** A basic block. Successor zero is the true arm of a two-way branch. */
  datatype Block = Block(
    id: Id,
    successors: seq<Id>,
    terminator: string,
    loopHeader: bool,
    loopBound: Id)

  /** One member of a mapping literal. */
  datatype Entry = Entry(key: string, valueId: Id)

  /** A dataflow node. */
  datatype Value = Value(
    id: Id,
    kind: string,
    name: string,
    loc: Loc,
    base: Id,
    path: string,
    entries: seq<Entry>)

  /** A dataflow edge. */
  datatype Flow = Flow(from: Id, to: Id, kind: string, loc: Loc, block: Id)

  datatype Arg = Arg(index: int, name: string, valueId: Id)

  /** What stands in front of a call's arguments, and where the call may go. */
  datatype Callee = Callee(
    kind: string,
    name: string,
    symbol: string,
    functionId: Id,
    possibleFunctionIds: seq<Id>)

  datatype Call = Call(
    id: Id,
    loc: Loc,
    callee: Callee,
    method_: string,
    args: seq<Arg>,
    receiverId: Id,
    resultId: Id,
    block: Id)

  /** A store below a value, under a name. */
  datatype Write = Write(base: Id, path: string, from: Id)

  /** A comparison of two values, and the block that branches on it. */
  datatype Comparison = Comparison(left: Id, right: Id, op: string, block: Id, loc: Loc)
}
