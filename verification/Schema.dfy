/** Tables as the differ compares them, and what each emitted SQL statement does to them. */
module Schemas {
  import opened Collections

  /** A compiled field; `default` is the rendered SQL literal of the contract's value, absent
  when the contract gives none or an empty string. */
  datatype Field = Field(
    name: string, ty: string, required: bool, default: Option<string>, computed: Option<string>)

  datatype Entity = Entity(fqn: string, tableName: string, fields: seq<Field>)

  /** The expression the database itself evaluates to fill the column, or "". */
  function ServerDefault(f: Field): string {
    if f.computed == Some("now") || f.computed == Some("now_on_update") then "now()"
    else if f.computed == Some("uuid") && f.ty == "uuid" then "gen_random_uuid()"
    else ""
  }

  function DefaultClause(f: Field): string {
    if ServerDefault(f) != "" then "DEFAULT " + ServerDefault(f)
    else if f.default.None? then ""
    else "DEFAULT " + f.default.value
  }

  function ColumnIsNotNull(f: Field): bool {
    f.required || ServerDefault(f) != ""
  }

  /** `PG_TYPES`, and `TEXT` for every other type; the precision of a decimal is not modelled. */
  function PgType(ty: string): string {
    match ty
    case "integer" => "INTEGER"
    case "number" => "DOUBLE PRECISION"
    case "decimal" => "NUMERIC"
    case "boolean" => "BOOLEAN"
    case "array" => "JSONB"
    case "object" => "JSONB"
    case "datetime" => "TIMESTAMPTZ"
    case "date" => "DATE"
    case "uuid" => "UUID"
    case _ => "TEXT"
  }

  predicate Filled(f: Field) {
    && f.computed.Some?
    && (f.computed.value == "now" || f.computed.value == "now_on_update" || (f.computed.value == "uuid" && f.ty == "uuid"))
  }

  /** A column that the database fills itself is never null and ignores the contract's default; any
  other column has the contract's default, or none, and is not null where the field is required. */
  lemma ColumnExactly(f: Field)
    ensures ServerDefault(f)
      == if !Filled(f) then "" else if f.computed.value == "uuid" then "gen_random_uuid()" else "now()"
    ensures Filled(f) ==> ColumnIsNotNull(f) && DefaultClause(f) == "DEFAULT " + ServerDefault(f)
    ensures !Filled(f) ==> ColumnIsNotNull(f) == f.required
    ensures !Filled(f) ==> DefaultClause(f) == if f.default.None? then "" else "DEFAULT " + f.default.value
  {
    assert |"now()"| == 5 && |"gen_random_uuid()"| == 17;
    assert "uuid" != "now" && "uuid" != "now_on_update" by { assert "uuid"[0] == 'u' && "now"[0] == 'n' && "now_on_update"[0] == 'n'; }
  }

  predicate Listed(ty: string) {
    ty == "integer" || ty == "number" || ty == "decimal" || ty == "boolean" || ty == "array" || ty == "object"
    || ty == "datetime" || ty == "date" || ty == "uuid"
  }

  predicate Json(ty: string) {
    ty == "array" || ty == "object"
  }

  /** The length and the first letter of a listed type's column type. */
  ghost function Mark(ty: string): (nat, char) {
    if ty == "integer" then (7, 'I') else if ty == "number" then (16, 'D') else if ty == "decimal" then (7, 'N')
    else if ty == "boolean" then (7, 'B') else if ty == "array" || ty == "object" then (5, 'J')
    else if ty == "datetime" then (11, 'T') else if ty == "date" then (4, 'D') else (4, 'U')
  }

  lemma TypeIsMarked(ty: string)
    requires Listed(ty)
    ensures PgType(ty) != "" && (|PgType(ty)|, PgType(ty)[0]) == Mark(ty)
    ensures Json(ty) ==> PgType(ty) == "JSONB"
  {
  }

  /** Two listed types have one column type only as the two kinds of JSON, and none is text, which
  every other type is. */
  lemma TypesTellApart(a: string, b: string)
    requires Listed(a) && a != b
    ensures Listed(b) ==> (PgType(a) == PgType(b) <==> Json(a) && Json(b))
    ensures PgType(a) != "TEXT" && (!Listed(b) ==> PgType(b) == "TEXT")
  {
    TypeIsMarked(a);
    if Listed(b) {
      TypeIsMarked(b);
      if Mark(a) == Mark(b) { MarksDiffer(a, b); }
    }
  }

  lemma MarksDiffer(a: string, b: string)
    requires Listed(a) && Listed(b) && a != b && Mark(a) == Mark(b)
    ensures Json(a) && Json(b)
  {
  }

  datatype Key = NoKey | Unique | Primary

  datatype Column = Column(ty: string, default: string, notNull: bool, key: Key)

  type Table = map<string, Column>
  type Tables = map<string, Table>

  /** `_add_column`: the column an `ALTER TABLE ... ADD COLUMN` adds. */
  function AddedColumn(f: Field): Column {
    Column(PgType(f.ty), DefaultClause(f), ColumnIsNotNull(f), NoKey)
  }

  const UUID_DEFAULT := "DEFAULT gen_random_uuid()"

  predicate IsUuidKey(f: Field) {
    f.name == "id" && f.ty == "uuid"
  }

  /** `column_definition`: the column in a `CREATE TABLE`, which is fixed for a uuid `id` and for
  every `number`, whatever else the field says. */
  function CreatedColumn(f: Field): Column {
    if IsUuidKey(f) then Column("UUID", UUID_DEFAULT, true, Primary)
    else if f.name == "number" then Column("TEXT", "", false, Unique)
    else AddedColumn(f)
  }

  /** `{f.name: f for f in fields}`: a repeated name keeps its place and takes the last value. */
  function ByName(fields: seq<Field>): (d: Dict<string, Field>)
    ensures d.Ok() && forall n <- d.at :: d.at[n].name == n
  {
    if fields == [] then Empty()
    else
      var last := fields[|fields| - 1];
      ByName(fields[..|fields| - 1]).Set(last.name, last)
  }

  type Version = Dict<string, Entity>

  /** `{e.fqn: e for e in entities}` */
  function ByFqn(entities: seq<Entity>): (v: Version)
    ensures v.Ok()
  {
    if entities == [] then Empty()
    else
      var last := entities[|entities| - 1];
      ByFqn(entities[..|entities| - 1]).Set(last.fqn, last)
  }

  /** The table `create_table_sql` creates. */
  function TableOf(e: Entity): Table {
    var d := ByName(e.fields);
    map n | n in d.at :: CreatedColumn(d.at[n])
  }

  /** Two entities never share a table, which semantic validation enforces. */
  ghost predicate OneTableEach(v: Version) {
    v.Ok() && forall a, b :: a in v.at && b in v.at && v.at[a].tableName == v.at[b].tableName ==> a == b
  }

  ghost function TableNames(v: Version): set<string> {
    set a <- v.at :: v.at[a].tableName
  }

  /** The tables of those entities in `keys` that are not in `skip`. */
  ghost function Picked(v: Version, keys: seq<string>, skip: set<string>): Tables
    requires forall k <- keys :: k in v.at
  {
    if keys == [] then map[]
    else
      var last := keys[|keys| - 1];
      var init := Picked(v, keys[..|keys| - 1], skip);
      if last in skip then init else init[v.at[last].tableName := TableOf(v.at[last])]
  }

  lemma {:induction false} PickedAt(v: Version, keys: seq<string>, skip: set<string>)
    requires OneTableEach(v) && forall k <- keys :: k in v.at
    ensures forall t :: t in Picked(v, keys, skip) <==>
      exists k :: k in keys && k !in skip && v.at[k].tableName == t
    ensures forall k :: k in keys && k !in skip ==> Picked(v, keys, skip)[v.at[k].tableName] == TableOf(v.at[k])
  {
    hide TableOf;
    if keys != [] {
      PickedAt(v, keys[..|keys| - 1], skip);
      assert keys == keys[..|keys| - 1] + [keys[|keys| - 1]];
    }
  }

  lemma KeysIn<V>(d: Dict<string, V>)
    requires d.Ok()
    ensures forall k :: k in d.keys <==> k in d.at
  {
    assert forall k :: k in d.keys <==> k in Elements(d.keys);
  }

  /** The database that a version of the contracts describes. */
  ghost function TablesOf(v: Version): (ts: Tables)
    requires OneTableEach(v)
    ensures ts.Keys == TableNames(v)
    ensures forall a <- v.at :: ts[v.at[a].tableName] == TableOf(v.at[a])
  {
    KeysIn(v);
    PickedAt(v, v.keys, {});
    Picked(v, v.keys, {})
  }

  /** A statement on one column. */
  datatype ColumnChange =
    | AddColumn(name: string, field: Field)
    | DropColumn(name: string)
    | AlterType(name: string, ty: string)
    | SetDefault(name: string, field: Field)
    | DropDefault(name: string)
    | SetNotNull(name: string)
    | DropNotNull(name: string)

  datatype Change =
    | CreateTable(table: string, entity: Entity)
    | DropTable(table: string)
    | AlterTable(table: string, column: ColumnChange)

  /** One column statement; `None` is an error from the database.  Adding and dropping are
  guarded (`IF NOT EXISTS`, `IF EXISTS`); altering a column that is not there is an error, and so
  is making a primary key nullable. */
  function ExecColumn(t: Table, c: ColumnChange): Option<Table> {
    if c.AddColumn? then Some(if c.name in t then t else t[c.name := AddedColumn(c.field)])
    else if c.DropColumn? then Some(t - {c.name})
    else if c.name !in t || (c.DropNotNull? && t[c.name].key == Primary) then None
    else Some(t[c.name := Altered(t[c.name], c)])
  }

  function Altered(col: Column, c: ColumnChange): Column {
    match c
    case AlterType(_, ty) => col.(ty := PgType(ty))
    case SetDefault(_, f) => col.(default := DefaultClause(f))
    case DropDefault(_) => col.(default := "")
    case SetNotNull(_) => col.(notNull := true)
    case DropNotNull(_) => col.(notNull := false)
    case _ => col
  }

  /** One statement of a migration; altering a table that is not there is an error. */
  function Exec(db: Tables, c: Change): Option<Tables> {
    match c
    case CreateTable(t, e) => Some(if t in db then db else db[t := TableOf(e)])
    case DropTable(t) => Some(db - {t})
    case AlterTable(t, column) =>
      if t !in db then None
      else
        var after := ExecColumn(db[t], column);
        if after.None? then None else Some(db[t := after.value])
  }

  /** A migration body: its statements in order, none of them after an error. */
  function ExecAll(db: Tables, cs: seq<Change>): Option<Tables> {
    if cs == [] then Some(db)
    else
      var mid := ExecAll(db, cs[..|cs| - 1]);
      if mid.None? then None else Exec(mid.value, cs[|cs| - 1])
  }

  function ExecColumns(t: Table, cs: seq<ColumnChange>): Option<Table> {
    if cs == [] then Some(t)
    else
      var mid := ExecColumns(t, cs[..|cs| - 1]);
      if mid.None? then None else ExecColumn(mid.value, cs[|cs| - 1])
  }

  lemma {:induction false} ExecAllAppend(db: Tables, a: seq<Change>, b: seq<Change>)
    ensures var mid := ExecAll(db, a);
      ExecAll(db, a + b) == if mid.None? then None else ExecAll(mid.value, b)
  {
    if b == [] {
      assert a + b == a;
    } else {
      ExecAllAppend(db, a, b[..|b| - 1]);
      assert (a + b)[..|a + b| - 1] == a + b[..|b| - 1];
    }
  }

  lemma {:induction false} ExecColumnsAppend(t: Table, a: seq<ColumnChange>, b: seq<ColumnChange>)
    ensures var mid := ExecColumns(t, a);
      ExecColumns(t, a + b) == if mid.None? then None else ExecColumns(mid.value, b)
  {
    if b == [] {
      assert a + b == a;
    } else {
      ExecColumnsAppend(t, a, b[..|b| - 1]);
      assert (a + b)[..|a + b| - 1] == a + b[..|b| - 1];
    }
  }

  /** Column statements wrapped for one table. */
  function On(table: string, cs: seq<ColumnChange>): (r: seq<Change>)
    ensures |r| == |cs| && forall i :: 0 <= i < |r| ==> r[i] == AlterTable(table, cs[i])
  {
    seq(|cs|, i requires 0 <= i < |cs| => AlterTable(table, cs[i]))
  }

  /** They change that table and no other. */
  lemma {:induction false} ExecOn(db: Tables, table: string, cs: seq<ColumnChange>)
    requires table in db
    ensures var t := ExecColumns(db[table], cs);
      ExecAll(db, On(table, cs)) == if t.None? then None else Some(db[table := t.value])
  {
    if cs == [] {
      assert db[table := db[table]] == db;
    } else {
      var init := cs[..|cs| - 1];
      ExecOn(db, table, init);
      assert On(table, cs)[..|cs| - 1] == On(table, init);
      var mid := ExecColumns(db[table], init);
      if mid.Some? {
        var after := ExecColumn(mid.value, cs[|cs| - 1]);
        if after.Some? {
          assert db[table := mid.value][table := after.value] == db[table := after.value];
        }
      }
    }
  }
}
