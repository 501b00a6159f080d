/** The execution IR: fixed-size instruction rows, functions and module tables. */
module ExecIr {
  import opened Collections

  datatype BinOp = Add | Sub | Mul | Div | Rem | Eq | Ne | Lt | Le | Gt | Ge | And | Or | Xor | Shl | Shr
  datatype UnOp = Neg | Not | BitNot

  /** The opcodes, with the two groups the interpreter dispatches on together nested. */
  datatype Op =
    | LoadConst | LoadString | Copy
    | Binary(bin: BinOp) | Unary(un: UnOp)
    | SlotLoad | SlotStore | CallFn | CallExtern | Ret | Branch | Jump | Trap

  datatype Instr = Instr(op: Op, a: nat, b: nat, c: nat, imm: nat)

  datatype Function = Function(
    name: string, paramCount: nat, registerCount: nat, slotCount: nat,
    returnRegister: nat, returnIsExitCode: bool, body: seq<Instr>)

  datatype Module = Module(
    functions: seq<Function>, strings: seq<string>, constants: seq<int>, externs: seq<string>)

  /** `sourceName`: drop everything from the first `(`, then keep what follows the last `.`. */
  function SourceName(linkage: string): string
  {
    AfterLast(UpTo(linkage, '('), '.')
  }

  function UpTo(s: string, c: char): string
  {
    if s == [] || s[0] == c then [] else [s[0]] + UpTo(s[1..], c)
  }

  function AfterLast(s: string, c: char): string
  {
    if s == [] || s[|s| - 1] == c then []
    else AfterLast(s[..|s| - 1], c) + [s[|s| - 1]]
  }
}
