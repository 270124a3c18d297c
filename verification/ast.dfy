/**
 * The node taxonomy of the statement parser (src/parser/ast.go).
 *
 * Go's `Node` interface has one operation, `Pos()`. It is satisfied by the three
 * statement records and by `*Statement` itself, so a `Statement` may wrap another
 * `Statement`. Here that open interface is a closed datatype whose variants are
 * exactly those four implementations. Tokens come from the lexer package, which
 * is not part of this model: they are the opaque type parameter `T`.
 */
module Ast {
  import opened Wrappers

  /** Go's `type NodeType int8`: every 8-bit signed value is a NodeType. */
  newtype NodeType = x: int | -128 <= x < 128

  /** The six named NodeType constants, one constructor per constant. */
  datatype Kind =
    | NumberValue
    | TextValue
    | BooleanValue
    | CreateTableStatement
    | InsertStatement
    | SelectStatement

  /** The constants in the order of their declaration in the `iota` block. */
  const DeclarationOrder: seq<Kind> :=
    [NumberValue, TextValue, BooleanValue, CreateTableStatement, InsertStatement, SelectStatement]

  /** The int8 value `iota` gives each constant: its index in the declaration order. */
  function Code(k: Kind): (t: NodeType)
    ensures 0 <= t < |DeclarationOrder| as NodeType
    ensures DeclarationOrder[t] == k
  {
    match k
    case NumberValue => 0
    case TextValue => 1
    case BooleanValue => 2
    case CreateTableStatement => 3
    case InsertStatement => 4
    case SelectStatement => 5
  }

  /** The named constant a NodeType value stands for, if any. */
  function KindOf(t: NodeType): (r: Option<Kind>)
    ensures r.Some? <==> 0 <= t < 6
    ensures r.Some? ==> Code(r.value) == t
  {
    if 0 <= t < 6 then Some(DeclarationOrder[t]) else None
  }

  /** Distinct constants have distinct values, and each value names back its constant. */
  lemma CodeRoundTrip(k: Kind, t: NodeType)
    ensures KindOf(Code(k)) == Some(k)
    ensures KindOf(t) == Some(k) <==> Code(k) == t
  {
  }

  /**
   * A value satisfying Go's `Node` interface. The three records carry their
   * `_type` tag, their write-once `start` position and their token fields; the
   * `Wrapper` variant is a `*Statement` used as a Node.
   */
  datatype Node<T> =
    | CreateTable(nodeType: NodeType, start: int, tableName: T,
                  columnNames: seq<T>, columnTypes: seq<T>)
    | Insert(nodeType: NodeType, start: int, tableName: T,
             columnNames: seq<T>, columnValues: seq<T>)
    | Select(nodeType: NodeType, start: int, columns: seq<T>, tableName: T)
    | Wrapper(statement: Statement<T>)
  {
    /**
     * `Pos()`: a record answers its `start`; a wrapped `*Statement` delegates.
     * `None` is the nil-pointer panic of an empty `Content`.
     */
    function Pos(): (p: Option<int>)
      decreases this
    {
      match this
      case Wrapper(s) => s.Pos()
      case _ => Some(start)
    }
  }

  /**
   * The uniform handle returned by the parser. `content` is `None` when the
   * `Content` interface holds nil (or a nil pointer), where Go's `Pos()` panics.
   */
  datatype Statement<T> = Statement(content: Option<Node<T>>)
  {
    /** `Statement.Pos()` asks the wrapped node. */
    function Pos(): (p: Option<int>)
      decreases this
    {
      if content.None? then None else content.value.Pos()
    }
  }

  /** The statement record at the bottom of a chain of `Statement` wrappers, if any. */
  function Innermost<T>(s: Statement<T>): (r: Option<Node<T>>)
    ensures r.Some? ==> !r.value.Wrapper?
    decreases s
  {
    match s.content
    case None => None
    case Some(n) => if n.Wrapper? then Innermost(n.statement) else Some(n)
  }

  /** A record's position is its own `start` field, whatever its other fields hold. */
  lemma RecordPos<T>(n: Node<T>)
    requires !n.Wrapper?
    ensures n.Pos() == Some(n.start)
  {
  }

  /**
   * However deeply statements are nested, `Statement.Pos()` is exactly the
   * `start` of the record at the bottom, and panics exactly when there is none.
   */
  lemma {:induction false} StatementPos<T>(s: Statement<T>)
    ensures s.Pos().Some? <==> Innermost(s).Some?
    ensures Innermost(s).Some? ==> s.Pos() == Some(Innermost(s).value.start)
    decreases s
  {
    match s.content
    case None =>
    case Some(n) =>
      if n.Wrapper? {
        StatementPos(n.statement);
      }
  }

  /** Delegation: a statement reports exactly the position of the node it holds. */
  lemma StatementDelegates<T>(s: Statement<T>, n: Node<T>)
    requires s.content == Some(n)
    ensures s.Pos() == n.Pos()
  {
  }
}
