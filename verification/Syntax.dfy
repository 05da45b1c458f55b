/**
  Statements as the parser builds them.
 */
module Syntax {
  import opened Text

  datatype QualifiedName = QualifiedName(schema: Option<string>, table: string)

  datatype Where = NoWhere | Where(column: string, value: string, op: Op)

  /** Select the listed columns, or all of them. */
  datatype SelectStatement = SelectStatement(all: bool, columns: seq<string>, where_: Where)

  datatype Statement =
    | InsertInto(target: QualifiedName, columns: seq<string>, values: seq<string>)
    | SelectFrom(source: QualifiedName, query: SelectStatement)
}
