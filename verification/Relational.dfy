/** The relational store that the data-movement scripts read and write. */
module Relational {
  type Table = string
  type Column = string
  type Uuid = nat

  /** A piece of text: one character, a whole UUID, or the first eight digits of one. */
  datatype Token = Ch(c: char) | Id(id: Uuid) | Short(id: Uuid)

  /** A string of characters as text. */
  function Chars(s: string): seq<Token> {
    seq(|s|, i requires 0 <= i < |s| => Ch(s[i]))
  }

  datatype Value =
    | Null
    | Ref(id: Uuid)                          // a column of type uuid
    | Text(tokens: seq<Token>)
    | Number(n: int)
    | Atom(tag: int)                         // any other scalar: booleans, instants
    | Dict(entries: seq<(string, Value)>)
    | List(items: seq<Value>)
    | Tuple(members: seq<Value>)

  type Row = map<Column, Value>
  type Store = map<Table, seq<Row>>

  datatype ForeignKey = ForeignKey(column: Column, parent: Table)

  /** `idKey`: the primary key is the single column `id`. */
  datatype TableDef = TableDef(columns: set<Column>, idKey: bool, fks: set<ForeignKey>)

  type Schema = map<Table, TableDef>

  /** The row has a non-null uuid in the column. */
  predicate Has(row: Row, column: Column) {
    column in row && row[column].Ref?
  }

  function At(row: Row, column: Column): Uuid
    requires Has(row, column)
  {
    row[column].id
  }

  predicate HasId(rows: seq<Row>, u: Uuid) {
    exists r: Row :: r in rows && Has(r, "id") && At(r, "id") == u
  }

  /** The row's reference through `fk` is null or names an existing row. */
  predicate Resolves(store: Store, row: Row, fk: ForeignKey) {
    Has(row, fk.column) ==> fk.parent in store && HasId(store[fk.parent], At(row, fk.column))
  }

  predicate RowResolves(schema: Schema, store: Store, t: Table, row: Row) {
    t in schema ==> forall fk :: fk in schema[t].fks ==> Resolves(store, row, fk)
  }

  predicate NoDangling(schema: Schema, store: Store) {
    forall t, row :: t in store && row in store[t] ==> RowResolves(schema, store, t, row)
  }

  /** Every id of `a` is an id of `b`. */
  ghost predicate IdsKept(a: Store, b: Store) {
    forall t, u :: t in a && HasId(a[t], u) ==> t in b && HasId(b[t], u)
  }

  /** References survive as long as no id is lost. */
  lemma ResolvesIsMonotone(schema: Schema, a: Store, b: Store, t: Table, row: Row)
    requires IdsKept(a, b) && RowResolves(schema, a, t, row)
    ensures RowResolves(schema, b, t, row)
  {
  }

  /** The ids of the rows, as a set. */
  function IdsOf(rows: seq<Row>): set<Uuid> {
    set r: Row | r in rows && Has(r, "id") :: At(r, "id")
  }

  /** Every row carries an id, and no two rows the same one. */
  ghost predicate Keyed(rows: seq<Row>) {
    && (forall i :: 0 <= i < |rows| ==> Has(rows[i], "id"))
    && (forall i, j :: 0 <= i < j < |rows| ==> At(rows[i], "id") != At(rows[j], "id"))
  }

  lemma KeyDetermines(rows: seq<Row>, a: Row, b: Row)
    requires Keyed(rows) && a in rows && b in rows && Has(a, "id") && Has(b, "id") && At(a, "id") == At(b, "id")
    ensures a == b
  {
  }

  /** The tables are those of the schema, and a primary key `id` is one. */
  ghost predicate WellKeyed(schema: Schema, store: Store) {
    && store.Keys == schema.Keys
    && (forall t, r :: t in store && r in store[t] ==> r.Keys == schema[t].columns)
    && (forall t :: t in schema && schema[t].idKey ==> Keyed(store[t]))
  }

  /** `select ... where column in ids` */
  function Where(rows: seq<Row>, column: Column, ids: set<Uuid>): (r: seq<Row>)
    ensures forall x :: x in r <==> x in rows && Has(x, column) && At(x, column) in ids
  {
    if rows == [] then [] else
      var last := rows[|rows| - 1];
      Where(rows[..|rows| - 1], column, ids) + if Has(last, column) && At(last, column) in ids then [last] else []
  }
}
