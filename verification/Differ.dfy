/** `forge/targets/migrations/differ.py`: the changes between two versions of the entities. */
module Differ {
  import opened Collections
  import opened Schemas

  type Fields = Dict<string, Field>

  function Added(was: Fields, now: Fields, keys: seq<string>): seq<ColumnChange>
    requires forall k <- keys :: k in now.at
  {
    if keys == [] then []
    else
      var last := keys[|keys| - 1];
      Added(was, now, keys[..|keys| - 1]) + (if last in was.at then [] else [AddColumn(last, now.at[last])])
  }

  function Removed(was: Fields, now: Fields, keys: seq<string>): seq<ColumnChange> {
    if keys == [] then []
    else
      var last := keys[|keys| - 1];
      Removed(was, now, keys[..|keys| - 1]) + (if last in now.at then [] else [DropColumn(last)])
  }

  function TypeChange(o: Field, n: Field, name: string): seq<ColumnChange> {
    if o.ty != n.ty then [AlterType(name, n.ty)] else []
  }

  function DefaultChange(o: Field, n: Field, name: string): seq<ColumnChange> {
    if DefaultClause(o) == DefaultClause(n) then []
    else if DefaultClause(n) != "" then [SetDefault(name, n)]
    else [DropDefault(name)]
  }

  function NullChange(o: Field, n: Field, name: string): seq<ColumnChange> {
    if !ColumnIsNotNull(o) && ColumnIsNotNull(n) then [SetNotNull(name)]
    else if ColumnIsNotNull(o) && !ColumnIsNotNull(n) then [DropNotNull(name)]
    else []
  }

  function FieldChanges(o: Field, n: Field, name: string): seq<ColumnChange> {
    TypeChange(o, n, name) + DefaultChange(o, n, name) + NullChange(o, n, name)
  }

  function Modified(was: Fields, now: Fields, keys: seq<string>): seq<ColumnChange>
    requires forall k <- keys :: k in was.at
  {
    if keys == [] then []
    else
      var last := keys[|keys| - 1];
      Modified(was, now, keys[..|keys| - 1])
      + (if last in now.at then FieldChanges(was.at[last], now.at[last], last) else [])
  }

  function FieldsDiff(was: Fields, now: Fields): seq<ColumnChange>
    requires was.Ok() && now.Ok()
  {
    KeysIn(was);
    KeysIn(now);
    Added(was, now, now.keys) + Removed(was, now, was.keys) + Modified(was, now, was.keys)
  }

  /** The loops of `_diff_entity_fields`. */
  method DiffEntityFields(before: Entity, after: Entity) returns (changes: seq<Change>)
    ensures changes == On(after.tableName, FieldsDiff(ByName(before.fields), ByName(after.fields)))
  {
    var oldFields, newFields := ByName(before.fields), ByName(after.fields);
    KeysIn(oldFields);
    KeysIn(newFields);
    var added := AddedFields(oldFields, newFields, newFields.keys);
    var removed := RemovedFields(oldFields, newFields, oldFields.keys);
    var modified := ModifiedFields(oldFields, newFields, oldFields.keys);
    changes := On(after.tableName, added + removed + modified);
  }

  method AddedFields(was: Fields, now: Fields, keys: seq<string>) returns (changes: seq<ColumnChange>)
    requires forall k <- keys :: k in now.at
    ensures changes == Added(was, now, keys)
  {
    changes := [];
    for i := 0 to |keys|
      invariant changes == Added(was, now, keys[..i])
    {
      assert keys[..i + 1][..i] == keys[..i];
      if keys[i] !in was.at {
        changes := changes + [AddColumn(keys[i], now.at[keys[i]])];
      }
    }
    assert keys[..|keys|] == keys;
  }

  method RemovedFields(was: Fields, now: Fields, keys: seq<string>) returns (changes: seq<ColumnChange>)
    ensures changes == Removed(was, now, keys)
  {
    changes := [];
    for i := 0 to |keys|
      invariant changes == Removed(was, now, keys[..i])
    {
      assert keys[..i + 1][..i] == keys[..i];
      if keys[i] !in now.at {
        changes := changes + [DropColumn(keys[i])];
      }
    }
    assert keys[..|keys|] == keys;
  }

  method ModifiedFields(was: Fields, now: Fields, keys: seq<string>) returns (changes: seq<ColumnChange>)
    requires forall k <- keys :: k in was.at
    ensures changes == Modified(was, now, keys)
  {
    changes := [];
    for i := 0 to |keys|
      invariant changes == Modified(was, now, keys[..i])
    {
      assert keys[..i + 1][..i] == keys[..i];
      if keys[i] in now.at {
        var more := DiffField(was.at[keys[i]], now.at[keys[i]], keys[i]);
        changes := changes + more;
      }
    }
    assert keys[..|keys|] == keys;
  }

  /** One column kept: type first, then default, then nullability. */
  method DiffField(o: Field, n: Field, name: string) returns (changes: seq<ColumnChange>)
    ensures changes == FieldChanges(o, n, name)
  {
    changes := [];
    if o.ty != n.ty {
      changes := changes + [AlterType(name, n.ty)];
    }
    if DefaultClause(o) != DefaultClause(n) {
      if DefaultClause(n) != "" {
        changes := changes + [SetDefault(name, n)];
      } else {
        changes := changes + [DropDefault(name)];
      }
    }
    if !ColumnIsNotNull(o) && ColumnIsNotNull(n) {
      changes := changes + [SetNotNull(name)];
    } else if ColumnIsNotNull(o) && !ColumnIsNotNull(n) {
      changes := changes + [DropNotNull(name)];
    }
  }

  // ----- What the column changes of one table do -----

  /** A column after the changes of a field kept under its name: what differs between the two
  versions is set, the rest is left as it was. */
  function Patched(col: Column, o: Field, n: Field): Column {
    Column(
      if o.ty != n.ty then PgType(n.ty) else col.ty,
      if DefaultClause(o) != DefaultClause(n) then DefaultClause(n) else col.default,
      if ColumnIsNotNull(o) != ColumnIsNotNull(n) then ColumnIsNotNull(n) else col.notNull,
      col.key)
  }

  /** A primary key would have to become nullable. */
  predicate Locked(col: Column, o: Field, n: Field) {
    col.key == Primary && ColumnIsNotNull(o) && !ColumnIsNotNull(n)
  }

  lemma TypeExec(t: Table, o: Field, n: Field, name: string)
    requires name in t
    ensures ExecColumns(t, TypeChange(o, n, name))
      == Some(t[name := t[name].(ty := if o.ty != n.ty then PgType(n.ty) else t[name].ty)])
  {
    ExecAtMostOne(t, TypeChange(o, n, name));
    assert t[name := t[name]] == t;
  }

  lemma DefaultExec(t: Table, o: Field, n: Field, name: string)
    requires name in t
    ensures ExecColumns(t, DefaultChange(o, n, name)) == Some(t[name := t[name].(
      default := if DefaultClause(o) != DefaultClause(n) then DefaultClause(n) else t[name].default)])
  {
    ExecAtMostOne(t, DefaultChange(o, n, name));
    assert t[name := t[name]] == t;
  }

  lemma NullExec(t: Table, o: Field, n: Field, name: string)
    requires name in t
    ensures ExecColumns(t, NullChange(o, n, name)) == if Locked(t[name], o, n) then None else Some(t[name := t[name].(
      notNull := if ColumnIsNotNull(o) != ColumnIsNotNull(n) then ColumnIsNotNull(n) else t[name].notNull)])
  {
    ExecAtMostOne(t, NullChange(o, n, name));
    assert t[name := t[name]] == t;
  }

  lemma FieldChangesExec(t: Table, o: Field, n: Field, name: string)
    requires name in t
    ensures ExecColumns(t, FieldChanges(o, n, name))
      == if Locked(t[name], o, n) then None else Some(t[name := Patched(t[name], o, n)])
  {
    hide ExecColumns, TypeChange, DefaultChange, NullChange, DefaultClause, ColumnIsNotNull, PgType;
    var a, b, c := TypeChange(o, n, name), DefaultChange(o, n, name), NullChange(o, n, name);
    ExecColumnsAppend(t, a, b);
    ExecColumnsAppend(t, a + b, c);
    TypeExec(t, o, n, name);
    var t1 := ExecColumns(t, a).value;
    DefaultExec(t1, o, n, name);
    var t2 := ExecColumns(t1, b).value;
    NullExec(t2, o, n, name);
    assert t2[name := Patched(t[name], o, n)] == t[name := Patched(t[name], o, n)];
  }

  /** What the differ compares of a field: its type as the contract has it, and the default and
  the nullability as rendered. */
  predicate Compares(o: Field, n: Field) {
    o.ty == n.ty && DefaultClause(o) == DefaultClause(n) && ColumnIsNotNull(o) == ColumnIsNotNull(n)
  }

  lemma NoChangesIfCompares(o: Field, n: Field, name: string)
    ensures FieldChanges(o, n, name) == [] <==> Compares(o, n)
  {
  }

  lemma ChangesAlter(o: Field, n: Field, name: string)
    ensures forall c <- FieldChanges(o, n, name) :: c.name == name && !c.AddColumn? && !c.DropColumn?
  {
    hide DefaultClause, ColumnIsNotNull;
  }

  /** Changing a column that is not there is an error, if there is anything to change. */
  lemma MissingColumn(t: Table, o: Field, n: Field, name: string)
    requires name !in t
    ensures ExecColumns(t, FieldChanges(o, n, name)) == if Compares(o, n) then Some(t) else None
  {
    var cs := FieldChanges(o, n, name);
    NoChangesIfCompares(o, n, name);
    ChangesAlter(o, n, name);
    hide FieldChanges, Compares, AddedColumn, Altered;
    if cs != [] {
      assert cs == [cs[0]] + cs[1..];
      ExecColumnsAppend(t, [cs[0]], cs[1..]);
      ExecAtMostOne(t, [cs[0]]);
    }
  }

  lemma ExecAtMostOne(t: Table, cs: seq<ColumnChange>)
    requires |cs| <= 1
    ensures ExecColumns(t, cs) == if cs == [] then Some(t) else ExecColumn(t, cs[0])
  {
    if cs != [] { assert cs[..0] == []; }
  }

  lemma AddedOne(t: Table, was: Fields, now: Fields, name: string)
    requires name in now.at
    ensures var more: seq<ColumnChange> := if name in was.at then [] else [AddColumn(name, now.at[name])];
      ExecColumns(t, more)
        == Some(if name in was.at || name in t then t else t[name := AddedColumn(now.at[name])])
  {
    hide AddedColumn;
    ExecAtMostOne(t, if name in was.at then [] else [AddColumn(name, now.at[name])]);
  }

  lemma {:induction false} AddedExec(t: Table, was: Fields, now: Fields, keys: seq<string>)
    requires forall k <- keys :: k in now.at
    ensures var r := ExecColumns(t, Added(was, now, keys));
      && r.Some?
      && (forall k :: k in r.value <==> k in t || (k in keys && k !in was.at))
      && (forall k <- r.value :: r.value[k] == if k in t then t[k] else AddedColumn(now.at[k]))
  {
    hide AddedColumn, ExecColumns;
    if keys == [] {
      ExecAtMostOne(t, []);
    } else {
      var init, last := keys[..|keys| - 1], keys[|keys| - 1];
      assert keys == init + [last];
      AddedExec(t, was, now, init);
      var more: seq<ColumnChange> := if last in was.at then [] else [AddColumn(last, now.at[last])];
      ExecColumnsAppend(t, Added(was, now, init), more);
      AddedOne(ExecColumns(t, Added(was, now, init)).value, was, now, last);
    }
  }

  lemma {:induction false} RemovedExec(t: Table, was: Fields, now: Fields, keys: seq<string>)
    ensures var r := ExecColumns(t, Removed(was, now, keys));
      && r.Some?
      && (forall k :: k in r.value <==> k in t && !(k in keys && k !in now.at))
      && (forall k <- r.value :: r.value[k] == t[k])
  {
    if keys != [] {
      var init, last := keys[..|keys| - 1], keys[|keys| - 1];
      assert keys == init + [last];
      RemovedExec(t, was, now, init);
      var more := if last in now.at then [] else [DropColumn(last)];
      ExecColumnsAppend(t, Removed(was, now, init), more);
      ExecAtMostOne(ExecColumns(t, Removed(was, now, init)).value, more);
    }
  }

  /** A kept field whose changes are an error. */
  predicate Fails(t: Table, was: Fields, now: Fields, k: string) {
    k in was.at && k in now.at
    && if k in t then Locked(t[k], was.at[k], now.at[k]) else !Compares(was.at[k], now.at[k])
  }

  /** What the changes of the kept fields among `keys` make of a table. */
  ghost predicate ModifiedTo(t: Table, was: Fields, now: Fields, keys: seq<string>, r: Option<Table>)
    requires forall k <- keys :: k in was.at
  {
    && (r.None? <==> exists k <- keys :: Fails(t, was, now, k))
    && (r.Some? ==>
      && r.value.Keys == t.Keys
      && forall k <- t :: r.value[k] ==
           if k in keys && k in now.at then Patched(t[k], was.at[k], now.at[k]) else t[k])
  }

  lemma ModifiedStep(t: Table, was: Fields, now: Fields, init: seq<string>, last: string, mid: Table)
    requires (forall k <- init + [last] :: k in was.at) && last !in init && last in now.at
    requires (forall k <- init :: k in was.at) && ModifiedTo(t, was, now, init, Some(mid))
    ensures ModifiedTo(t, was, now, init + [last],
                       ExecColumns(mid, FieldChanges(was.at[last], now.at[last], last)))
  {
    hide Patched, Locked, Compares, ExecColumns, FieldChanges;
    assert last in init + [last];
    if last in t {
      FieldChangesExec(mid, was.at[last], now.at[last], last);
      assert Fails(t, was, now, last) <==> Locked(t[last], was.at[last], now.at[last]);
    } else {
      MissingColumn(mid, was.at[last], now.at[last], last);
      assert Fails(t, was, now, last) <==> !Compares(was.at[last], now.at[last]);
    }
  }

  lemma NothingMissing(t: Table, was: Fields, now: Fields, init: seq<string>, last: string, r: Option<Table>)
    requires (forall k <- init + [last] :: k in was.at) && (forall k <- init :: k in was.at)
    requires ModifiedTo(t, was, now, init, r) && (last !in now.at || r.None?)
    ensures ModifiedTo(t, was, now, init + [last], r)
  {
    hide Patched, Locked, Compares;
  }

  lemma {:induction false} ModifiedExec(t: Table, was: Fields, now: Fields, keys: seq<string>)
    requires (forall k <- keys :: k in was.at) && Distinct(keys)
    ensures ModifiedTo(t, was, now, keys, ExecColumns(t, Modified(was, now, keys)))
  {
    hide ModifiedTo;
    if keys == [] {
      ModifiedNothing(t, was, now);
    } else {
      var init, last := keys[..|keys| - 1], keys[|keys| - 1];
      assert keys == init + [last] && last !in init;
      ModifiedExec(t, was, now, init);
      var mid := ExecColumns(t, Modified(was, now, init));
      if last in now.at {
        ExecColumnsAppend(t, Modified(was, now, init), FieldChanges(was.at[last], now.at[last], last));
        if mid.Some? {
          ModifiedStep(t, was, now, init, last, mid.value);
        } else {
          NothingMissing(t, was, now, init, last, mid);
        }
      } else {
        assert Modified(was, now, keys) == Modified(was, now, init);
        NothingMissing(t, was, now, init, last, mid);
      }
    }
  }

  lemma ModifiedNothing(t: Table, was: Fields, now: Fields)
    ensures ModifiedTo(t, was, now, [], Some(t))
  {
  }

  lemma ReshapedExec(t: Table, was: Fields, now: Fields)
    requires was.Ok() && now.Ok()
    requires (forall k <- now.keys :: k in now.at) && forall k <- was.keys :: k in was.at
    ensures var r := ExecColumns(t, Added(was, now, now.keys) + Removed(was, now, was.keys));
      && r.Some?
      && (forall k :: k in r.value <==>
            (k in t || (k in now.at && k !in was.at)) && !(k in was.at && k !in now.at))
      && (forall k <- r.value :: r.value[k] == if k in t then t[k] else AddedColumn(now.at[k]))
  {
    hide AddedColumn;
    KeysIn(was);
    KeysIn(now);
    AddedExec(t, was, now, now.keys);
    RemovedExec(ExecColumns(t, Added(was, now, now.keys)).value, was, now, was.keys);
    ExecColumnsAppend(t, Added(was, now, now.keys), Removed(was, now, was.keys));
  }

  /** The changes of its field make the column what `CREATE TABLE` would: what they set is right,
  what they leave alone was right before, and no primary key would become nullable. */
  predicate Agrees(col: Column, o: Field, n: Field) {
    var goal := CreatedColumn(n);
    && col.key == goal.key && !Locked(col, o, n)
    && goal.ty == (if o.ty != n.ty then PgType(n.ty) else col.ty)
    && goal.default == (if DefaultClause(o) != DefaultClause(n) then DefaultClause(n) else col.default)
    && goal.notNull == (if ColumnIsNotNull(o) != ColumnIsNotNull(n) then ColumnIsNotNull(n) else col.notNull)
  }

  /** `CREATE TABLE` writes a column that `ADD COLUMN` does not. */
  predicate Keyed(f: Field) {
    IsUuidKey(f) || f.name == "number"
  }

  /** A table on which the changes from fields `was` to fields `now` give exactly the columns that
  creating it for `now` gives: every column belongs to a field of either version, a kept field
  has a column that agrees, and a new field has the right one, or none and is not keyed. */
  ghost predicate Fits(t: Table, was: Fields, now: Fields) {
    && (forall k <- t :: k in was.at || k in now.at)
    && (forall k <- now.at ::
          if k in was.at then k in t && Agrees(t[k], was.at[k], now.at[k])
          else if k in t then t[k] == CreatedColumn(now.at[k])
          else !Keyed(now.at[k]))
  }

  ghost function Columns(d: Fields): Table {
    map n | n in d.at :: CreatedColumn(d.at[n])
  }

  lemma PatchedIfAgrees(col: Column, o: Field, n: Field)
    ensures !Locked(col, o, n) && Patched(col, o, n) == CreatedColumn(n) <==> Agrees(col, o, n)
  {
    hide PgType, DefaultClause, ColumnIsNotNull;
  }

  lemma AddedIfNotKeyed(f: Field)
    ensures AddedColumn(f) == CreatedColumn(f) <==> !Keyed(f)
  {
    hide PgType, DefaultClause, ColumnIsNotNull;
  }

  /** The column of `k` after all changes, if none fails. */
  ghost predicate EndsRight(t: Table, was: Fields, now: Fields, t2: Table, k: string)
    requires k in now.at
  {
    if k in was.at then
      k in t2 && !Locked(t2[k], was.at[k], now.at[k]) && Patched(t2[k], was.at[k], now.at[k]) == CreatedColumn(now.at[k])
    else k in t2 && t2[k] == CreatedColumn(now.at[k])
  }

  lemma EndsRightIfFits(t: Table, was: Fields, now: Fields, t2: Table)
    requires forall k :: k in t2 <==> (k in t || (k in now.at && k !in was.at)) && !(k in was.at && k !in now.at)
    requires forall k <- t2 :: t2[k] == if k in t then t[k] else AddedColumn(now.at[k])
    ensures Fits(t, was, now)
      <==> (forall k <- t2 :: k in now.at) && forall k <- now.at :: EndsRight(t, was, now, t2, k)
  {
    hide Patched, Agrees, Locked, CreatedColumn, AddedColumn, Keyed;
    forall k | k in now.at && k in was.at && k in t
      ensures EndsRight(t, was, now, t2, k) <==> Agrees(t[k], was.at[k], now.at[k])
    {
      PatchedIfAgrees(t[k], was.at[k], now.at[k]);
    }
    forall k | k in now.at && k !in was.at && k !in t ensures EndsRight(t, was, now, t2, k) <==> !Keyed(now.at[k]) {
      AddedIfNotKeyed(now.at[k]);
    }
  }

  /** The changes of an entity, on any table whatever: they succeed and give exactly the columns of
  the new version if and only if the table fits. */
  lemma FieldsExec(t: Table, was: Fields, now: Fields)
    requires was.Ok() && now.Ok()
    ensures ExecColumns(t, FieldsDiff(was, now)) == Some(Columns(now)) <==> Fits(t, was, now)
  {
    hide Patched, Locked, CreatedColumn, AddedColumn, ExecColumns, Fits;
    KeysIn(was);
    KeysIn(now);
    ReshapedExec(t, was, now);
    var ab, c := Added(was, now, now.keys) + Removed(was, now, was.keys), Modified(was, now, was.keys);
    var t2 := ExecColumns(t, ab).value;
    ModifiedExec(t2, was, now, was.keys);
    ExecColumnsAppend(t, ab, c);
    EndsRightIfFits(t, was, now, t2);
    var r := ExecColumns(t2, c);
    if Fits(t, was, now) {
      assert r.Some? by { NothingFails(t, was, now, t2); }
      SameColumns(r.value, Columns(now));
    }
    if r == Some(Columns(now)) {
      assert t2.Keys == Columns(now).Keys;
      forall k | k in now.at ensures EndsRight(t, was, now, t2, k) {
        assert r.value[k] == CreatedColumn(now.at[k]);
        assert k in was.at ==> k in was.keys && !Fails(t2, was, now, k);
      }
    }
  }

  lemma NothingFails(t: Table, was: Fields, now: Fields, t2: Table)
    requires forall k <- now.at :: EndsRight(t, was, now, t2, k)
    ensures forall k :: !Fails(t2, was, now, k)
  {
  }

  lemma SameColumns(a: Table, b: Table)
    requires (forall k :: k in a <==> k in b) && forall k <- a :: a[k] == b[k]
    ensures a == b
  {
  }

  /** A field that keeps its name keeps a right column: always, but for the two columns that
  `CREATE TABLE` fixes.  A uuid `id` stays one, gets no other default and does not become
  nullable; a `number` gets no type but one of text, no default, and does not become required. */
  predicate StaysRight(o: Field, n: Field) {
    if n.name == "id" then
      && (o.ty == "uuid" <==> n.ty == "uuid")
      && (n.ty == "uuid" ==>
            && (DefaultClause(o) == DefaultClause(n) || DefaultClause(n) == UUID_DEFAULT)
            && (ColumnIsNotNull(o) ==> ColumnIsNotNull(n)))
    else n.name == "number" ==>
      && (o.ty == n.ty || PgType(n.ty) == "TEXT")
      && (DefaultClause(o) == DefaultClause(n) || DefaultClause(n) == "")
      && (ColumnIsNotNull(n) ==> ColumnIsNotNull(o))
  }

  lemma OwnColumnAgrees(o: Field, n: Field)
    requires o.name == n.name
    ensures Agrees(CreatedColumn(o), o, n) <==> StaysRight(o, n)
  {
    hide PgType, DefaultClause, ColumnIsNotNull;
    assert PgType("uuid") == "UUID" by { UuidIsUuid(); }
  }

  lemma UuidIsUuid()
    ensures PgType("uuid") == "UUID"
  {
  }

  /** The fields of one entity in two versions: no new field is keyed, and the kept ones stay
  right. */
  ghost predicate FieldsStayRight(was: Fields, now: Fields) {
    forall k <- now.at :: if k in was.at then StaysRight(was.at[k], now.at[k]) else !Keyed(now.at[k])
  }

  /** So much for the changes of a kept entity on its own old table. */
  lemma OwnTableFits(before: Entity, after: Entity)
    ensures Fits(TableOf(before), ByName(before.fields), ByName(after.fields))
      <==> FieldsStayRight(ByName(before.fields), ByName(after.fields))
  {
    hide CreatedColumn, Agrees, StaysRight, Keyed;
    var was, now := ByName(before.fields), ByName(after.fields);
    forall k | k in now.at && k in was.at
      ensures Agrees(TableOf(before)[k], was.at[k], now.at[k]) <==> StaysRight(was.at[k], now.at[k])
    {
      OwnColumnAgrees(was.at[k], now.at[k]);
    }
  }

  // ----- Whole versions -----

  function Created(before: Version, after: Version, keys: seq<string>): seq<Change>
    requires forall k <- keys :: k in after.at
  {
    if keys == [] then []
    else
      var last := keys[|keys| - 1];
      Created(before, after, keys[..|keys| - 1])
      + (if last in before.at then [] else [CreateTable(after.at[last].tableName, after.at[last])])
  }

  function Dropped(before: Version, after: Version, keys: seq<string>): seq<Change>
    requires forall k <- keys :: k in before.at
  {
    if keys == [] then []
    else
      var last := keys[|keys| - 1];
      Dropped(before, after, keys[..|keys| - 1])
      + (if last in after.at then [] else [DropTable(before.at[last].tableName)])
  }

  function EntityDiff(before: Entity, after: Entity): seq<Change> {
    On(after.tableName, FieldsDiff(ByName(before.fields), ByName(after.fields)))
  }

  function Kept(before: Version, after: Version, keys: seq<string>): seq<Change>
    requires forall k <- keys :: k in before.at
  {
    if keys == [] then []
    else
      var last := keys[|keys| - 1];
      Kept(before, after, keys[..|keys| - 1])
      + (if last in after.at then EntityDiff(before.at[last], after.at[last]) else [])
  }

  function Diff(before: Version, after: Version): seq<Change>
    requires before.Ok() && after.Ok()
  {
    KeysIn(before);
    KeysIn(after);
    Created(before, after, after.keys) + Dropped(before, after, before.keys) + Kept(before, after, before.keys)
  }

  method DiffEntities(oldEntities: seq<Entity>, newEntities: seq<Entity>) returns (changes: seq<Change>)
    ensures changes == Diff(ByFqn(oldEntities), ByFqn(newEntities))
  {
    var before, after := ByFqn(oldEntities), ByFqn(newEntities);
    KeysIn(before);
    KeysIn(after);
    var created := NewEntities(before, after);
    var dropped := RemovedEntities(before, after);
    var kept := KeptEntities(before, after);
    changes := created + dropped + kept;
  }

  method NewEntities(before: Version, after: Version) returns (changes: seq<Change>)
    requires after.Ok() && forall k <- after.keys :: k in after.at
    ensures changes == Created(before, after, after.keys)
  {
    changes := [];
    for i := 0 to |after.keys|
      invariant changes == Created(before, after, after.keys[..i])
    {
      var fqn := after.keys[i];
      assert after.keys[..i + 1][..i] == after.keys[..i];
      if fqn !in before.at {
        changes := changes + [CreateTable(after.at[fqn].tableName, after.at[fqn])];
      }
    }
    assert after.keys[..|after.keys|] == after.keys;
  }

  method RemovedEntities(before: Version, after: Version) returns (changes: seq<Change>)
    requires before.Ok() && forall k <- before.keys :: k in before.at
    ensures changes == Dropped(before, after, before.keys)
  {
    changes := [];
    for i := 0 to |before.keys|
      invariant changes == Dropped(before, after, before.keys[..i])
    {
      var fqn := before.keys[i];
      assert before.keys[..i + 1][..i] == before.keys[..i];
      if fqn !in after.at {
        changes := changes + [DropTable(before.at[fqn].tableName)];
      }
    }
    assert before.keys[..|before.keys|] == before.keys;
  }

  method KeptEntities(before: Version, after: Version) returns (changes: seq<Change>)
    requires before.Ok() && forall k <- before.keys :: k in before.at
    ensures changes == Kept(before, after, before.keys)
  {
    changes := [];
    for i := 0 to |before.keys|
      invariant changes == Kept(before, after, before.keys[..i])
    {
      var fqn := before.keys[i];
      assert before.keys[..i + 1][..i] == before.keys[..i];
      if fqn in after.at {
        var more := DiffEntityFields(before.at[fqn], after.at[fqn]);
        changes := changes + more;
      }
    }
    assert before.keys[..|before.keys|] == before.keys;
  }

  lemma OneStatement(db: Tables, cs: seq<Change>)
    requires |cs| <= 1
    ensures ExecAll(db, cs) == if cs == [] then Some(db) else Exec(db, cs[0])
  {
    if cs != [] { assert cs[..0] == []; }
  }

  lemma PutUnder(m: Tables, db: Tables, name: string, t: Table)
    ensures m[name := t] + db == if name in db then m + db else (m + db)[name := t]
    ensures db + m[name := t] == (db + m)[name := t]
  {
  }

  lemma {:induction false} CreatedExec(db: Tables, before: Version, after: Version, keys: seq<string>)
    requires OneTableEach(after) && Distinct(keys) && forall k <- keys :: k in after.at
    ensures ExecAll(db, Created(before, after, keys)) == Some(Picked(after, keys, before.at.Keys) + db)
  {
    if keys == [] {
      assert map[] + db == db;
    } else {
      var init, last := keys[..|keys| - 1], keys[|keys| - 1];
      CreatedExec(db, before, after, init);
      var more := if last in before.at then [] else [CreateTable(after.at[last].tableName, after.at[last])];
      ExecAllAppend(db, Created(before, after, init), more);
      var m := Picked(after, init, before.at.Keys);
      OneStatement(m + db, more);
      PickedAt(after, init, before.at.Keys);
      assert last !in init;
      PutUnder(m, db, after.at[last].tableName, TableOf(after.at[last]));
    }
  }

  lemma TakeAway(db: Tables, m: Tables, name: string, t: Table)
    ensures db - m[name := t].Keys == (db - m.Keys) - {name}
  {
    assert m[name := t].Keys == m.Keys + {name};
  }

  lemma {:induction false} DroppedExec(db: Tables, before: Version, after: Version, keys: seq<string>)
    requires forall k <- keys :: k in before.at
    ensures ExecAll(db, Dropped(before, after, keys)) == Some(db - Picked(before, keys, after.at.Keys).Keys)
  {
    hide ExecAll, TableOf;
    if keys == [] {
      assert Picked(before, keys, after.at.Keys).Keys == {};
      assert db - {} == db;
      OneStatement(db, []);
    } else {
      var init, last := keys[..|keys| - 1], keys[|keys| - 1];
      DroppedExec(db, before, after, init);
      var more := if last in after.at then [] else [DropTable(before.at[last].tableName)];
      ExecAllAppend(db, Dropped(before, after, init), more);
      var m := Picked(before, init, after.at.Keys);
      OneStatement(db - m.Keys, more);
      TakeAway(db, m, before.at[last].tableName, TableOf(before.at[last]));
    }
  }

  /** The column changes of kept entity `k`. */
  function Patch(before: Version, after: Version, k: string): seq<ColumnChange>
    requires k in before.at && k in after.at
  {
    FieldsDiff(ByName(before.at[k].fields), ByName(after.at[k].fields))
  }

  /** The changes of the kept entities, when their new tables are all there: each table gets the
  changes of its own entity, and no other table is touched. */
  lemma {:induction false} KeptExec(db: Tables, before: Version, after: Version, keys: seq<string>)
    requires OneTableEach(after) && Distinct(keys) && forall k <- keys :: k in before.at
    requires forall k <- keys :: k in after.at ==> after.at[k].tableName in db
    ensures var r := ExecAll(db, Kept(before, after, keys));
      && (r.Some? <==> forall k <- keys :: k in after.at ==>
            ExecColumns(db[after.at[k].tableName], Patch(before, after, k)).Some?)
      && (r.Some? ==>
            && r.value.Keys == db.Keys
            && (forall k <- keys :: k in after.at ==>
                  Some(r.value[after.at[k].tableName])
                    == ExecColumns(db[after.at[k].tableName], Patch(before, after, k)))
            && (forall t <- db :: (forall k <- keys :: k in after.at ==> after.at[k].tableName != t)
                  ==> r.value[t] == db[t]))
  {
    hide ExecColumns, Patch;
    if keys != [] {
      var init, last := keys[..|keys| - 1], keys[|keys| - 1];
      assert keys == init + [last] && last !in init;
      KeptExec(db, before, after, init);
      var mid := ExecAll(db, Kept(before, after, init));
      if last in after.at {
        var t := after.at[last].tableName;
        EntityDiffIsPatch(before, after, last);
        ExecAllAppend(db, Kept(before, after, init), On(t, Patch(before, after, last)));
        if mid.Some? {
          assert mid.value[t] == db[t];
          ExecOn(mid.value, t, Patch(before, after, last));
        }
      } else {
        assert Kept(before, after, keys) == Kept(before, after, init);
      }
    }
  }

  lemma EntityDiffIsPatch(before: Version, after: Version, k: string)
    requires k in before.at && k in after.at
    ensures EntityDiff(before.at[k], after.at[k]) == On(after.at[k].tableName, Patch(before, after, k))
  {
  }

  /** The tables of the entities of `v` that `other` does not have. */
  ghost function Only(v: Version, other: Version): (ts: Tables)
    requires OneTableEach(v)
    ensures forall k <- v.at :: k !in other.at ==>
      v.at[k].tableName in ts && ts[v.at[k].tableName] == TableOf(v.at[k])
    ensures forall t <- ts :: exists k :: k in v.at && k !in other.at && v.at[k].tableName == t
  {
    KeysIn(v);
    PickedAt(v, v.keys, other.at.Keys);
    Picked(v, v.keys, other.at.Keys)
  }

  /** The tables after the creations and the drops. */
  ghost function Middle(before: Version, after: Version): Tables
    requires OneTableEach(before) && OneTableEach(after)
  {
    (Only(after, before) + TablesOf(before)) - Only(before, after).Keys
  }

  lemma MiddleExec(before: Version, after: Version)
    requires OneTableEach(before) && OneTableEach(after)
    ensures ExecAll(TablesOf(before), Diff(before, after))
      == ExecAll(Middle(before, after), Kept(before, after, before.keys))
  {
    KeysIn(before);
    KeysIn(after);
    var db := TablesOf(before);
    var a, b, c := Created(before, after, after.keys), Dropped(before, after, before.keys), Kept(before, after, before.keys);
    CreatedExec(db, before, after, after.keys);
    DroppedExec(Only(after, before) + db, before, after, before.keys);
    ExecAllAppend(db, a, b);
    ExecAllAppend(db, a + b, c);
  }

  /** A name is both given to a new entity and taken from a removed one. */
  ghost predicate Reuses(before: Version, after: Version) {
    exists k, d :: k in after.at && k !in before.at && d in before.at && d !in after.at
      && after.at[k].tableName == before.at[d].tableName
  }

  predicate IsKept(before: Version, after: Version, k: string) {
    k in before.at && k in after.at
  }

  /** The tables of the entities of `v` that `other` has too. */
  ghost function KeptNames(v: Version, other: Version): set<string> {
    set k <- v.at | k in other.at :: v.at[k].tableName
  }

  /** Where entity `k` is found afterwards is where entity `d` was. */
  predicate TakesOver(before: Version, after: Version, k: string, d: string) {
    IsKept(before, after, k) && IsKept(before, after, d) && after.at[k].tableName == before.at[d].tableName
  }

  lemma MiddleNames(before: Version, after: Version)
    requires OneTableEach(before) && OneTableEach(after)
    ensures Middle(before, after).Keys == TableNames(after)
      <==> !Reuses(before, after) && KeptNames(before, after) == KeptNames(after, before)
  {
    hide TableOf;
    MiddleNamesAt(before, after);
    if Middle(before, after).Keys == TableNames(after) {
      NothingReused(before, after);
      SameKeptNames(before, after);
    } else if !Reuses(before, after) && KeptNames(before, after) == KeptNames(after, before) {
      NamesMatch(before, after);
    }
  }

  lemma MiddleNamesAt(before: Version, after: Version)
    requires OneTableEach(before) && OneTableEach(after)
    ensures forall t :: t in Middle(before, after) <==>
      && (t in Only(after, before) || t in TableNames(before))
      && t !in Only(before, after)
  {
  }

  lemma NothingReused(before: Version, after: Version)
    requires OneTableEach(before) && OneTableEach(after)
    requires Middle(before, after).Keys == TableNames(after)
    ensures !Reuses(before, after)
  {
    forall k, d | k in after.at && k !in before.at && d in before.at && d !in after.at
      ensures after.at[k].tableName != before.at[d].tableName
    {
      assert after.at[k].tableName in TableNames(after);
      assert before.at[d].tableName in Only(before, after);
    }
  }

  lemma NewNamesAreOld(before: Version, after: Version)
    requires OneTableEach(before) && OneTableEach(after)
    requires Middle(before, after).Keys == TableNames(after)
    ensures KeptNames(after, before) <= KeptNames(before, after)
  {
    hide TableOf;
    MiddleNamesAt(before, after);
    forall t | t in KeptNames(after, before) ensures t in KeptNames(before, after) {
      assert t in TableNames(after) && t !in Only(after, before);
      assert t in TableNames(before);
    }
  }

  /** The kept entities have as many names as before, so they have the same ones. */
  lemma SameKeptNames(before: Version, after: Version)
    requires OneTableEach(before) && OneTableEach(after)
    requires Middle(before, after).Keys == TableNames(after)
    ensures KeptNames(before, after) == KeptNames(after, before)
  {
    hide TableOf, Middle;
    NewNamesAreOld(before, after);
    KeptCount(before, after, before.at.Keys * after.at.Keys);
    KeptCount(after, before, before.at.Keys * after.at.Keys);
    SubsetCount(KeptNames(after, before), KeptNames(before, after));
  }

  lemma KeptCount(v: Version, other: Version, kept: set<string>)
    requires OneTableEach(v) && kept == v.at.Keys * other.at.Keys
    ensures |KeptNames(v, other)| == |kept|
  {
    ImageCount(v, kept);
    assert KeptNames(v, other) == set k | k in kept :: v.at[k].tableName;
  }

  lemma {:induction false} ImageCount(v: Version, kept: set<string>)
    requires OneTableEach(v) && kept <= v.at.Keys
    ensures |set k | k in kept :: v.at[k].tableName| == |kept|
    decreases kept
  {
    if kept != {} {
      var x :| x in kept;
      var rest := kept - {x};
      ImageCount(v, rest);
      assert (set k | k in kept :: v.at[k].tableName)
        == (set k | k in rest :: v.at[k].tableName) + {v.at[x].tableName};
    }
  }

  lemma NamesMatch(before: Version, after: Version)
    requires OneTableEach(before) && OneTableEach(after)
    requires !Reuses(before, after) && KeptNames(before, after) == KeptNames(after, before)
    ensures Middle(before, after).Keys == TableNames(after)
  {
    hide TableOf, Middle, Picked;
    MiddleNamesAt(before, after);
    forall t | t in TableNames(after) ensures t in Middle(before, after) {
      var k :| k in after.at && after.at[k].tableName == t;
      if k in before.at {
        assert t in KeptNames(after, before);
        var d :| d in before.at && d in after.at && before.at[d].tableName == t;
      }
    }
    forall t | t in Middle(before, after) ensures t in TableNames(after) {
      if t !in Only(after, before) {
        var d :| d in before.at && before.at[d].tableName == t;
        assert d in after.at;
        assert t in KeptNames(before, after);
      }
    }
  }

  /** What the kept entities' changes start from. */
  lemma MiddleAtKept(before: Version, after: Version, k: string)
    requires OneTableEach(before) && OneTableEach(after)
    requires !Reuses(before, after) && KeptNames(before, after) == KeptNames(after, before)
    requires IsKept(before, after, k)
    ensures exists d :: TakesOver(before, after, k, d)
    ensures forall d :: TakesOver(before, after, k, d) ==>
      after.at[k].tableName in Middle(before, after)
      && Middle(before, after)[after.at[k].tableName] == TableOf(before.at[d])
  {
    hide TableOf;
    var t := after.at[k].tableName;
    NamesMatch(before, after);
    assert t in TableNames(after);
    assert t in KeptNames(after, before);
    var d :| d in before.at && d in after.at && before.at[d].tableName == t;
    assert TakesOver(before, after, k, d);
  }

  lemma MiddleAtNew(before: Version, after: Version, k: string)
    requires OneTableEach(before) && OneTableEach(after)
    requires !Reuses(before, after) && KeptNames(before, after) == KeptNames(after, before)
    requires k in after.at && k !in before.at
    ensures after.at[k].tableName in Middle(before, after)
      && Middle(before, after)[after.at[k].tableName] == TableOf(after.at[k])
  {
    hide TableOf;
    var t := after.at[k].tableName;
    NamesMatch(before, after);
    assert t in TableNames(after);
    NewNameIsFree(before, after, k);
  }

  lemma NewNameIsFree(before: Version, after: Version, k: string)
    requires OneTableEach(after) && k in after.at && k !in before.at
    requires !Reuses(before, after) && KeptNames(before, after) == KeptNames(after, before)
    ensures after.at[k].tableName !in TableNames(before)
  {
    var t := after.at[k].tableName;
    assert t !in KeptNames(after, before);
    forall d | d in before.at ensures before.at[d].tableName != t {
      if d in after.at { assert before.at[d].tableName in KeptNames(before, after); }
    }
  }

  /** The emitted changes can carry the old tables to the new ones: no name goes from a removed
  to a new entity, the kept entities share out the tables they had among themselves, and
  whatever table an entity takes over fits the changes of its own fields. */
  ghost predicate Carries(before: Version, after: Version) {
    && !Reuses(before, after)
    && KeptNames(before, after) == KeptNames(after, before)
    && forall k, d :: TakesOver(before, after, k, d) ==>
         Fits(TableOf(before.at[d]), ByName(before.at[k].fields), ByName(after.at[k].fields))
  }

  lemma PatchExec(t: Table, before: Version, after: Version, k: string)
    requires IsKept(before, after, k)
    ensures ExecColumns(t, Patch(before, after, k)) == Some(TableOf(after.at[k]))
      <==> Fits(t, ByName(before.at[k].fields), ByName(after.at[k].fields))
  {
    FieldsExec(t, ByName(before.at[k].fields), ByName(after.at[k].fields));
    assert Columns(ByName(after.at[k].fields)) == TableOf(after.at[k]);
  }

  lemma EqualTables(a: Tables, b: Tables)
    requires forall t :: t in a <==> t in b
    requires forall t <- a :: a[t] == b[t]
    ensures a == b
  {
  }

  lemma {:induction false} AlteringKeepsTables(db: Tables, cs: seq<Change>)
    requires forall c <- cs :: c.AlterTable?
    ensures var r := ExecAll(db, cs); r.Some? ==> r.value.Keys == db.Keys
  {
    if cs != [] {
      assert cs[|cs| - 1] in cs;
      AlteringKeepsTables(db, cs[..|cs| - 1]);
    }
  }

  lemma {:induction false} KeptAlters(before: Version, after: Version, keys: seq<string>)
    requires forall k <- keys :: k in before.at
    ensures forall c <- Kept(before, after, keys) :: c.AlterTable?
  {
    if keys != [] { KeptAlters(before, after, keys[..|keys| - 1]); }
  }

  /** With the right names, the right columns decide. */
  lemma ColumnsDecide(before: Version, after: Version)
    requires OneTableEach(before) && OneTableEach(after)
    requires !Reuses(before, after) && KeptNames(before, after) == KeptNames(after, before)
    ensures ExecAll(Middle(before, after), Kept(before, after, before.keys)) == Some(TablesOf(after))
      <==> Carries(before, after)
  {
    hide ExecColumns, ExecAll, Patch, Fits, TableOf, Middle, Reuses, KeptNames, Kept;
    KeysIn(before);
    hide OneTableEach;
    var db := Middle(before, after);
    var r := ExecAll(db, Kept(before, after, before.keys));
    NamesMatch(before, after);
    forall k | k in after.at ensures after.at[k].tableName in db {
      assert after.at[k].tableName in TableNames(after);
    }
    KeptExec(db, before, after, before.keys);
    forall k | IsKept(before, after, k)
      ensures ExecColumns(db[after.at[k].tableName], Patch(before, after, k)) == Some(TableOf(after.at[k]))
        <==> forall d :: TakesOver(before, after, k, d) ==>
               Fits(TableOf(before.at[d]), ByName(before.at[k].fields), ByName(after.at[k].fields))
    {
      MiddleAtKept(before, after, k);
      PatchExec(db[after.at[k].tableName], before, after, k);
    }
    if Carries(before, after) {
      CarriedTables(before, after, r);
    }
    if r == Some(TablesOf(after)) {
      forall k, d | TakesOver(before, after, k, d)
        ensures Fits(TableOf(before.at[d]), ByName(before.at[k].fields), ByName(after.at[k].fields))
      {
        assert IsKept(before, after, k);
        assert r.value[after.at[k].tableName] == TableOf(after.at[k]);
      }
    }
  }

  lemma CarriedTables(before: Version, after: Version, r: Option<Tables>)
    requires OneTableEach(before) && OneTableEach(after)
    requires !Reuses(before, after) && KeptNames(before, after) == KeptNames(after, before)
    requires r.Some? && r.value.Keys == Middle(before, after).Keys
    requires forall k :: IsKept(before, after, k) ==>
      after.at[k].tableName in r.value && r.value[after.at[k].tableName] == TableOf(after.at[k])
    requires forall t <- Middle(before, after) ::
      (forall k :: IsKept(before, after, k) ==> after.at[k].tableName != t) ==> r.value[t] == Middle(before, after)[t]
    ensures r == Some(TablesOf(after))
  {
    hide TableOf, Middle, Reuses, KeptNames;
    NamesMatch(before, after);
    forall t | t in TablesOf(after) ensures t in r.value && r.value[t] == TablesOf(after)[t] {
      var k :| k in after.at && after.at[k].tableName == t;
      if k !in before.at {
        MiddleAtNew(before, after, k);
      } else {
        assert IsKept(before, after, k);
      }
    }
    EqualTables(r.value, TablesOf(after));
  }

  /** The differ, for all pairs of versions: running its changes on the old tables succeeds and
  gives exactly the new tables if and only if they can carry them. */
  lemma DiffIsExactly(before: Version, after: Version)
    requires OneTableEach(before) && OneTableEach(after)
    ensures ExecAll(TablesOf(before), Diff(before, after)) == Some(TablesOf(after)) <==> Carries(before, after)
  {
    hide ExecAll, Kept, TableOf;
    MiddleExec(before, after);
    MiddleNames(before, after);
    if !Reuses(before, after) && KeptNames(before, after) == KeptNames(after, before) {
      ColumnsDecide(before, after);
    } else {
      KeysIn(before);
      KeptAlters(before, after, before.keys);
      AlteringKeepsTables(Middle(before, after), Kept(before, after, before.keys));
    }
  }

  /** An entity that survives keeps its table. */
  ghost predicate KeepsTables(before: Version, after: Version) {
    forall k :: k in before.at && k in after.at ==> before.at[k].tableName == after.at[k].tableName
  }

  /** No kept entity changes its `id` and `number` fields in a way `ALTER TABLE` gets wrong. */
  ghost predicate AllStayRight(before: Version, after: Version) {
    forall k :: IsKept(before, after, k) ==> FieldsStayRight(ByName(before.at[k].fields), ByName(after.at[k].fields))
  }

  /** When every kept entity keeps its table, the differ is exact precisely when it does not
  recycle a table name between a removed and a new entity (creation is a no-op on the old table,
  which is then dropped) and all fields stay right. */
  lemma DiffIsExact(before: Version, after: Version)
    requires OneTableEach(before) && OneTableEach(after) && KeepsTables(before, after)
    ensures ExecAll(TablesOf(before), Diff(before, after)) == Some(TablesOf(after))
      <==> !Reuses(before, after) && AllStayRight(before, after)
  {
    hide Carries, TablesOf, ExecAll, Diff, OneTableEach, KeepsTables, Reuses, AllStayRight;
    DiffIsExactly(before, after);
    CarriesIfKept(before, after);
  }

  lemma CarriesIfKept(before: Version, after: Version)
    requires OneTableEach(before) && OneTableEach(after) && KeepsTables(before, after)
    ensures Carries(before, after) <==> !Reuses(before, after) && AllStayRight(before, after)
  {
    hide TableOf, Fits, Reuses, FieldsStayRight, KeptNames;
    SameNamesIfKept(before, after);
    forall k | IsKept(before, after, k)
      ensures Fits(TableOf(before.at[k]), ByName(before.at[k].fields), ByName(after.at[k].fields))
        <==> FieldsStayRight(ByName(before.at[k].fields), ByName(after.at[k].fields))
    {
      OwnTableFits(before.at[k], after.at[k]);
    }
    assert forall k :: IsKept(before, after, k) ==> TakesOver(before, after, k, k);
    assert forall k, d :: TakesOver(before, after, k, d) ==> k == d;
  }

  lemma SameNamesIfKept(before: Version, after: Version)
    requires KeepsTables(before, after)
    ensures KeptNames(before, after) == KeptNames(after, before)
  {
    forall t ensures t in KeptNames(before, after) <==> t in KeptNames(after, before) {
      if t in KeptNames(before, after) {
        var k :| k in before.at && k in after.at && before.at[k].tableName == t;
        assert after.at[k].tableName == t;
      }
      if t in KeptNames(after, before) {
        var k :| k in before.at && k in after.at && after.at[k].tableName == t;
        assert before.at[k].tableName == t;
      }
    }
  }

  /** An entity that is kept under a table name no kept entity had is missed: the differ
  compares entities by FQN and never emits a rename. */
  lemma MovedTableIsMissed(before: Version, after: Version, k: string)
    requires OneTableEach(before) && OneTableEach(after)
    requires IsKept(before, after, k) && after.at[k].tableName !in KeptNames(before, after)
    ensures ExecAll(TablesOf(before), Diff(before, after)) != Some(TablesOf(after))
  {
    DiffIsExactly(before, after);
    assert after.at[k].tableName in KeptNames(after, before);
  }

  // ----- Nothing to do -----

  lemma {:induction false} NothingAdded(was: Fields, now: Fields, keys: seq<string>)
    requires forall k <- keys :: k in now.at
    ensures Added(was, now, keys) == [] <==> forall k <- keys :: k in was.at
  {
    if keys != [] {
      NothingAdded(was, now, keys[..|keys| - 1]);
      assert keys == keys[..|keys| - 1] + [keys[|keys| - 1]];
    }
  }

  lemma {:induction false} NothingRemoved(was: Fields, now: Fields, keys: seq<string>)
    ensures Removed(was, now, keys) == [] <==> forall k <- keys :: k in now.at
  {
    if keys != [] {
      NothingRemoved(was, now, keys[..|keys| - 1]);
      assert keys == keys[..|keys| - 1] + [keys[|keys| - 1]];
    }
  }

  lemma {:induction false} NothingModified(was: Fields, now: Fields, keys: seq<string>)
    requires forall k <- keys :: k in was.at
    ensures Modified(was, now, keys) == [] <==> forall k <- keys :: k in now.at ==> Compares(was.at[k], now.at[k])
  {
    hide FieldChanges, Compares;
    if keys != [] {
      var last := keys[|keys| - 1];
      NothingModified(was, now, keys[..|keys| - 1]);
      assert keys == keys[..|keys| - 1] + [last];
      if last in now.at { NoChangesIfCompares(was.at[last], now.at[last], last); }
    }
  }

  /** The same field names, each with what the differ compares. */
  ghost predicate SameFields(was: Fields, now: Fields) {
    was.at.Keys == now.at.Keys && forall k <- was.at :: k in now.at ==> Compares(was.at[k], now.at[k])
  }

  lemma NoDiffIfSame(before: Entity, after: Entity)
    ensures EntityDiff(before, after) == [] <==> SameFields(ByName(before.fields), ByName(after.fields))
  {
    hide Compares, Added, Removed, Modified;
    var was, now := ByName(before.fields), ByName(after.fields);
    KeysIn(was);
    KeysIn(now);
    NothingAdded(was, now, now.keys);
    NothingRemoved(was, now, was.keys);
    NothingModified(was, now, was.keys);
  }

  lemma {:induction false} NothingCreated(before: Version, after: Version, keys: seq<string>)
    requires forall k <- keys :: k in after.at
    ensures Created(before, after, keys) == [] <==> forall k <- keys :: k in before.at
  {
    if keys != [] {
      NothingCreated(before, after, keys[..|keys| - 1]);
      assert keys == keys[..|keys| - 1] + [keys[|keys| - 1]];
    }
  }

  lemma {:induction false} NothingDropped(before: Version, after: Version, keys: seq<string>)
    requires forall k <- keys :: k in before.at
    ensures Dropped(before, after, keys) == [] <==> forall k <- keys :: k in after.at
  {
    if keys != [] {
      NothingDropped(before, after, keys[..|keys| - 1]);
      assert keys == keys[..|keys| - 1] + [keys[|keys| - 1]];
    }
  }

  lemma {:induction false} NothingAltered(before: Version, after: Version, keys: seq<string>)
    requires forall k <- keys :: k in before.at
    ensures Kept(before, after, keys) == []
      <==> forall k <- keys :: k in after.at ==> SameFieldsAt(before, after, k)
  {
    hide SameFields, EntityDiff;
    if keys != [] {
      var last := keys[|keys| - 1];
      NothingAltered(before, after, keys[..|keys| - 1]);
      assert keys == keys[..|keys| - 1] + [last];
      if last in after.at { NoDiffIfSame(before.at[last], after.at[last]); }
    }
  }

  ghost predicate SameFieldsAt(before: Version, after: Version, k: string)
    requires IsKept(before, after, k)
  {
    SameFields(ByName(before.at[k].fields), ByName(after.at[k].fields))
  }

  /** The same entities, each with the same fields as far as the differ compares them. */
  ghost predicate SameEntities(before: Version, after: Version) {
    && (forall k :: k in before.at <==> k in after.at)
    && (forall k :: IsKept(before, after, k) ==> SameFieldsAt(before, after, k))
  }

  /** Nothing is emitted exactly for versions with the same entities and fields, whatever their
  tables are called. */
  lemma DiffEmptyExactly(before: Version, after: Version)
    requires before.Ok() && after.Ok()
    ensures Diff(before, after) == [] <==> SameEntities(before, after)
  {
    hide SameFieldsAt, Created, Dropped, Kept;
    KeysIn(before);
    KeysIn(after);
    NothingCreated(before, after, after.keys);
    NothingDropped(before, after, before.keys);
    NothingAltered(before, after, before.keys);
  }

  /** Where both versions have a field, they agree on what the differ compares.  Two versions can
  describe the same tables without it: two types of one column type, or what a `number` and a
  uuid `id` say beyond their fixed columns. */
  ghost predicate ComparesThroughout(before: Version, after: Version) {
    forall k, n :: IsKept(before, after, k) && n in ByName(before.at[k].fields).at && n in ByName(after.at[k].fields).at
      ==> Compares(ByName(before.at[k].fields).at[n], ByName(after.at[k].fields).at[n])
  }

  /** When entities keep their tables and no name is recycled, nothing is emitted exactly when the
  two versions describe the same tables and say nothing else beyond them. */
  lemma DiffEmptyIffSame(before: Version, after: Version)
    requires OneTableEach(before) && OneTableEach(after) && KeepsTables(before, after)
    requires !Reuses(before, after)
    ensures Diff(before, after) == []
      <==> TablesOf(before) == TablesOf(after) && ComparesThroughout(before, after)
  {
    hide TableOf, Diff, Reuses, Compares;
    DiffEmptyExactly(before, after);
    if SameEntities(before, after) { SameEntitiesSameTables(before, after); }
    if TablesOf(before) == TablesOf(after) && ComparesThroughout(before, after) {
      SameTablesSameEntities(before, after);
    }
  }

  lemma SameColumn(o: Field, n: Field)
    requires o.name == n.name && Compares(o, n)
    ensures CreatedColumn(o) == CreatedColumn(n)
  {
    hide PgType, DefaultClause, ColumnIsNotNull;
  }

  lemma SameFieldsSameTable(before: Entity, after: Entity)
    requires SameFields(ByName(before.fields), ByName(after.fields))
    ensures TableOf(before) == TableOf(after)
  {
    hide Compares, CreatedColumn;
    var was, now := ByName(before.fields), ByName(after.fields);
    forall k | k in was.at ensures CreatedColumn(was.at[k]) == CreatedColumn(now.at[k]) {
      SameColumn(was.at[k], now.at[k]);
    }
  }

  lemma SameEntitiesSameTables(before: Version, after: Version)
    requires OneTableEach(before) && OneTableEach(after) && KeepsTables(before, after)
    requires SameEntities(before, after)
    ensures TablesOf(before) == TablesOf(after)
  {
    hide TableOf, SameFields;
    forall k | k in before.at ensures TableOf(before.at[k]) == TableOf(after.at[k]) {
      assert IsKept(before, after, k) && SameFieldsAt(before, after, k);
      SameFieldsSameTable(before.at[k], after.at[k]);
    }
    forall t ensures t in TablesOf(before) <==> t in TablesOf(after) {
      if t in TableNames(before) {
        var k :| k in before.at && before.at[k].tableName == t;
        assert after.at[k].tableName == t;
      }
      if t in TableNames(after) {
        var k :| k in after.at && after.at[k].tableName == t;
        assert before.at[k].tableName == t;
      }
    }
    forall t | t in TablesOf(before) ensures TablesOf(before)[t] == TablesOf(after)[t] {
      var k :| k in before.at && before.at[k].tableName == t;
      assert after.at[k].tableName == t;
    }
    EqualTables(TablesOf(before), TablesOf(after));
  }

  lemma SameFqns(before: Version, after: Version)
    requires OneTableEach(before) && OneTableEach(after) && KeepsTables(before, after)
    requires !Reuses(before, after) && TablesOf(before) == TablesOf(after)
    ensures forall k :: k in before.at <==> k in after.at
  {
    hide TableOf, Reuses, TablesOf, OneTableEach, KeepsTables;
    forall k ensures k in before.at <==> k in after.at {
      if k in after.at { OldTableFound(before, after, k); }
      if k in before.at { NewTableFound(before, after, k); }
    }
  }

  lemma SameTablesSameEntities(before: Version, after: Version)
    requires OneTableEach(before) && OneTableEach(after) && KeepsTables(before, after)
    requires !Reuses(before, after) && TablesOf(before) == TablesOf(after) && ComparesThroughout(before, after)
    ensures SameEntities(before, after)
  {
    hide TableOf, ComparesThroughout, SameFields, Reuses, TablesOf, OneTableEach, KeepsTables, ByName;
    SameFqns(before, after);
    hide SameFieldsAt;
    forall k | IsKept(before, after, k) ensures SameFieldsAt(before, after, k) {
      SameTableAt(before, after, k);
      SameAt(before, after, k);
    }
  }

  lemma SameTableAt(before: Version, after: Version, k: string)
    requires OneTableEach(before) && OneTableEach(after) && KeepsTables(before, after)
    requires TablesOf(before) == TablesOf(after) && IsKept(before, after, k)
    ensures TableOf(before.at[k]) == TableOf(after.at[k])
  {
    hide TableOf;
    assert TablesOf(before)[before.at[k].tableName] == TablesOf(after)[after.at[k].tableName];
  }

  lemma SameAt(before: Version, after: Version, k: string)
    requires IsKept(before, after, k) && TableOf(before.at[k]) == TableOf(after.at[k])
    requires ComparesThroughout(before, after)
    ensures SameFieldsAt(before, after, k)
  {
    hide Compares, TableOf;
    SameNamesIfSameTable(before.at[k], after.at[k]);
  }

  lemma SameNamesIfSameTable(before: Entity, after: Entity)
    requires TableOf(before) == TableOf(after)
    ensures ByName(before.fields).at.Keys == ByName(after.fields).at.Keys
  {
    assert TableOf(before).Keys == ByName(before.fields).at.Keys;
    assert TableOf(after).Keys == ByName(after.fields).at.Keys;
  }

  lemma OldTableFound(before: Version, after: Version, k: string)
    requires OneTableEach(before) && OneTableEach(after) && KeepsTables(before, after)
    requires !Reuses(before, after) && TablesOf(before).Keys == TablesOf(after).Keys && k in after.at
    ensures k in before.at
  {
    assert after.at[k].tableName in TableNames(before);
    var d :| d in before.at && before.at[d].tableName == after.at[k].tableName;
    if d in after.at { assert d == k; }
  }

  lemma NewTableFound(before: Version, after: Version, k: string)
    requires OneTableEach(before) && OneTableEach(after) && KeepsTables(before, after)
    requires !Reuses(before, after) && TablesOf(before).Keys == TablesOf(after).Keys && k in before.at
    ensures k in after.at
  {
    assert before.at[k].tableName in TableNames(after);
    var d :| d in after.at && after.at[d].tableName == before.at[k].tableName;
    if d in before.at { assert d == k; }
  }

  // ----- Versions the differ gets wrong -----

  function OneEntity(fqn: string, table: string, fields: seq<Field>): Version {
    Dict([fqn], map[fqn := Entity(fqn, table, fields)])
  }

  const TITLE := Field("title", "string", true, None, None)

  lemma OneTable(fqn: string, table: string, fields: seq<Field>)
    ensures OneTableEach(OneEntity(fqn, table, fields))
    ensures TablesOf(OneEntity(fqn, table, fields)) == map[table := TableOf(Entity(fqn, table, fields))]
  {
    hide TableOf;
    var v := OneEntity(fqn, table, fields);
    assert v.at[fqn].tableName in TableNames(v);
    assert TableNames(v) == {table};
  }

  /** A removed entity's table is given to a new one: it is created over the old one, which is
  then dropped. */
  lemma ReusedTableIsLost(fields: seq<Field>)
    ensures var before, after := OneEntity("a", "t", fields), OneEntity("b", "t", fields);
      && OneTableEach(before) && OneTableEach(after) && KeepsTables(before, after) && AllStayRight(before, after)
      && ExecAll(TablesOf(before), Diff(before, after)) != Some(TablesOf(after))
  {
    hide ExecAll, Diff, TableOf;
    var before, after := OneEntity("a", "t", fields), OneEntity("b", "t", fields);
    OneTable("a", "t", fields);
    OneTable("b", "t", fields);
    assert after.at["b"].tableName == before.at["a"].tableName;
    DiffIsExact(before, after);
  }

  lemma SameButForTheTable(fields: seq<Field>)
    ensures SameEntities(OneEntity("a", "t", fields), OneEntity("a", "u", fields))
  {
  }

  /** An entity is renamed to a table of its own: no statement is emitted at all. */
  lemma RenamedTableIsMissed(fields: seq<Field>)
    ensures var before, after := OneEntity("a", "t", fields), OneEntity("a", "u", fields);
      && OneTableEach(before) && OneTableEach(after) && Diff(before, after) == []
      && ExecAll(TablesOf(before), Diff(before, after)) != Some(TablesOf(after))
  {
    hide ExecAll, Diff, TableOf, SameEntities;
    var before, after := OneEntity("a", "t", fields), OneEntity("a", "u", fields);
    OneTable("a", "t", fields);
    OneTable("a", "u", fields);
    assert SameEntities(before, after) by { SameButForTheTable(fields); }
    DiffEmptyExactly(before, after);
    MovedTableIsMissed(before, after, "a");
  }

  lemma OneField(f: Field)
    ensures ByName([f]).at == map[f.name := f]
  {
    assert [f][..0] == [];
    assert ByName([]).at == map[];
  }

  lemma TwoFields(f: Field, g: Field)
    ensures ByName([f, g]).at == map[f.name := f][g.name := g]
  {
    OneField(f);
    assert [f, g][..1] == [f];
  }

  lemma OneColumn(f: Field)
    ensures TableOf(Entity("a", "t", [f])) == map[f.name := CreatedColumn(f)]
  {
    OneField(f);
  }

  /** One field that does not stay right although its column is fixed. */
  lemma FixedColumnIsWrong(was: Field, now: Field)
    requires was.name == now.name && CreatedColumn(was) == CreatedColumn(now) && !StaysRight(was, now)
    ensures var before, after := OneEntity("a", "t", [was]), OneEntity("a", "t", [now]);
      && OneTableEach(before) && OneTableEach(after)
      && TablesOf(before) == TablesOf(after)
      && ExecAll(TablesOf(before), Diff(before, after)) != Some(TablesOf(after))
  {
    hide ExecAll, Diff, StaysRight, TableOf, CreatedColumn, OneTableEach, KeepsTables, Reuses;
    OneEntityIsExact([was], [now]);
    OneColumn(was);
    OneColumn(now);
    OneField(was);
    OneField(now);
    OneTable("a", "t", [was]);
    OneTable("a", "t", [now]);
    assert ByName([now]).at[now.name] == now && ByName([was]).at[now.name] == was;
  }

  lemma OneEntityIsExact(was: seq<Field>, now: seq<Field>)
    ensures var before, after := OneEntity("a", "t", was), OneEntity("a", "t", now);
      && OneTableEach(before) && OneTableEach(after) && KeepsTables(before, after) && !Reuses(before, after)
      && (ExecAll(TablesOf(before), Diff(before, after)) == Some(TablesOf(after))
          <==> FieldsStayRight(ByName(was), ByName(now)))
  {
    hide ExecAll, Diff, TableOf, FieldsStayRight;
    OneTable("a", "t", was);
    OneTable("a", "t", now);
    DiffIsExact(OneEntity("a", "t", was), OneEntity("a", "t", now));
    assert IsKept(OneEntity("a", "t", was), OneEntity("a", "t", now), "a");
  }

  /** A `number` is added to an entity: the migration adds what the field says, while a new
  database gets `TEXT UNIQUE`. */
  lemma AddedNumberIsWrong()
    ensures var number := Field("number", "integer", true, None, None);
      var before, after := OneEntity("a", "t", [TITLE]), OneEntity("a", "t", [TITLE, number]);
      && OneTableEach(before) && OneTableEach(after) && KeepsTables(before, after) && !Reuses(before, after)
      && AddedColumn(number) == Column("INTEGER", "", true, NoKey)
      && CreatedColumn(number) == Column("TEXT", "", false, Unique)
      && ExecAll(TablesOf(before), Diff(before, after)) != Some(TablesOf(after))
  {
    hide ExecAll, Diff, TableOf;
    var number := Field("number", "integer", true, None, None);
    OneEntityIsExact([TITLE], [TITLE, number]);
    OneField(TITLE);
    TwoFields(TITLE, number);
    assert "number" in ByName([TITLE, number]).at;
  }

  /** A `number` becomes required: the two versions describe the same table, and yet a statement
  is emitted, which changes it. */
  lemma RequiredNumberIsWrong()
    ensures var was, now := Field("number", "string", false, None, None), Field("number", "string", true, None, None);
      var before, after := OneEntity("a", "t", [was]), OneEntity("a", "t", [now]);
      && OneTableEach(before) && OneTableEach(after)
      && TablesOf(before) == TablesOf(after)
      && ExecAll(TablesOf(before), Diff(before, after)) != Some(TablesOf(after))
  {
    FixedColumnIsWrong(Field("number", "string", false, None, None), Field("number", "string", true, None, None));
  }

  /** A uuid `id` loses `required` and `computed`: the same, and the statement would make the
  primary key nullable. */
  lemma OptionalKeyIsWrong()
    ensures var was, now := Field("id", "uuid", true, None, Some("uuid")), Field("id", "uuid", false, None, None);
      var before, after := OneEntity("a", "t", [was]), OneEntity("a", "t", [now]);
      && OneTableEach(before) && OneTableEach(after)
      && TablesOf(before) == TablesOf(after)
      && ExecAll(TablesOf(before), Diff(before, after)) != Some(TablesOf(after))
  {
    FixedColumnIsWrong(Field("id", "uuid", true, None, Some("uuid")), Field("id", "uuid", false, None, None));
  }

  function TwoEntities(first: string, second: string, fields: seq<Field>): Version {
    Dict(["a", "b"], map["a" := Entity("a", first, fields), "b" := Entity("b", second, fields)])
  }

  lemma SwappedNames(before: Version, after: Version, fields: seq<Field>)
    requires before == TwoEntities("t", "u", fields) && after == TwoEntities("u", "t", fields)
    ensures OneTableEach(before) && OneTableEach(after) && !KeepsTables(before, after)
    ensures !Reuses(before, after) && KeptNames(before, after) == KeptNames(after, before)
  {
    assert before.at["a"].tableName == after.at["b"].tableName == "t";
    assert before.at["b"].tableName == after.at["a"].tableName == "u";
    assert KeptNames(before, after) == {"t", "u"};
    assert KeptNames(after, before) == {"t", "u"};
  }

  lemma SwappedFit(before: Version, after: Version, fields: seq<Field>, k: string, d: string)
    requires before == TwoEntities("t", "u", fields) && after == TwoEntities("u", "t", fields)
    requires TakesOver(before, after, k, d)
    ensures Fits(TableOf(before.at[d]), ByName(before.at[k].fields), ByName(after.at[k].fields))
  {
    hide Fits, TableOf;
    OwnTableFits(before.at[d], after.at[k]);
    var named := ByName(fields);
    forall n | n in named.at ensures StaysRight(named.at[n], named.at[n]) {}
    assert before.at[d].fields == before.at[k].fields == fields;
  }

  /** Two entities with the same columns may swap their tables unharmed. */
  lemma SwappedTablesAreCarried(fields: seq<Field>)
    ensures var before, after := TwoEntities("t", "u", fields), TwoEntities("u", "t", fields);
      && OneTableEach(before) && OneTableEach(after) && !KeepsTables(before, after)
      && ExecAll(TablesOf(before), Diff(before, after)) == Some(TablesOf(after))
  {
    hide ExecAll, Diff, Fits, TableOf, KeptNames, Reuses, OneTableEach, KeepsTables, TwoEntities;
    var before, after := TwoEntities("t", "u", fields), TwoEntities("u", "t", fields);
    SwappedNames(before, after, fields);
    DiffIsExactly(before, after);
    forall k, d | TakesOver(before, after, k, d)
      ensures Fits(TableOf(before.at[d]), ByName(before.at[k].fields), ByName(after.at[k].fields))
    {
      SwappedFit(before, after, fields, k, d);
    }
  }

  // ----- Defaults before nullability -----

  predicate IsDefaultChange(c: ColumnChange) { c.SetDefault? || c.DropDefault? }

  predicate IsNullChange(c: ColumnChange) { c.SetNotNull? || c.DropNotNull? }

  ghost predicate DefaultsFirstIn(cs: seq<ColumnChange>) {
    forall i, j :: 0 <= i < j < |cs| && IsNullChange(cs[i]) && IsDefaultChange(cs[j])
      ==> cs[i].name != cs[j].name
  }

  /** No nullability change comes before a default change of the same column. */
  ghost predicate DefaultsFirst(cs: seq<Change>) {
    forall i, j :: 0 <= i < j < |cs| && cs[i].AlterTable? && cs[j].AlterTable?
      && IsNullChange(cs[i].column) && IsDefaultChange(cs[j].column) && cs[i].table == cs[j].table
      ==> cs[i].column.name != cs[j].column.name
  }

  lemma {:induction false} ModifiedDefaultsFirst(was: Fields, now: Fields, keys: seq<string>)
    requires Distinct(keys) && forall k <- keys :: k in was.at
    ensures DefaultsFirstIn(Modified(was, now, keys))
    ensures forall c <- Modified(was, now, keys) :: c.name in keys
  {
    if keys != [] {
      var init, last := keys[..|keys| - 1], keys[|keys| - 1];
      ModifiedDefaultsFirst(was, now, init);
      assert last !in init && keys == init + [last];
      if last in now.at {
        FieldDefaultsFirst(was.at[last], now.at[last], last);
        DefaultsFirstInAppend(Modified(was, now, init), FieldChanges(was.at[last], now.at[last], last));
      } else {
        assert Modified(was, now, keys) == Modified(was, now, init);
      }
    }
  }

  lemma FieldDefaultsFirst(o: Field, n: Field, name: string)
    ensures DefaultsFirstIn(FieldChanges(o, n, name))
    ensures forall c <- FieldChanges(o, n, name) :: c.name == name
  {
  }

  lemma DefaultsFirstInAppend(a: seq<ColumnChange>, b: seq<ColumnChange>)
    requires DefaultsFirstIn(a) && DefaultsFirstIn(b)
    requires forall x, y :: x in a && y in b && IsNullChange(x) && IsDefaultChange(y) ==> x.name != y.name
    ensures DefaultsFirstIn(a + b)
  {
    var cs := a + b;
    forall i, j | 0 <= i < j < |cs|
      ensures IsNullChange(cs[i]) && IsDefaultChange(cs[j]) ==> cs[i].name != cs[j].name
    {
      if i < |a| <= j {
        assert cs[i] in a && cs[j] in b;
      } else if i >= |a| {
        assert cs[i] == b[i - |a|] && cs[j] == b[j - |a|];
      }
    }
  }

  lemma {:induction false} AddedNeither(was: Fields, now: Fields, keys: seq<string>)
    requires forall k <- keys :: k in now.at
    ensures forall c <- Added(was, now, keys) :: c.AddColumn?
  {
    if keys != [] { AddedNeither(was, now, keys[..|keys| - 1]); }
  }

  lemma {:induction false} RemovedNeither(was: Fields, now: Fields, keys: seq<string>)
    ensures forall c <- Removed(was, now, keys) :: c.DropColumn?
  {
    if keys != [] { RemovedNeither(was, now, keys[..|keys| - 1]); }
  }

  lemma FieldsDefaultsFirst(was: Fields, now: Fields)
    requires was.Ok() && now.Ok()
    ensures DefaultsFirstIn(FieldsDiff(was, now))
  {
    KeysIn(was);
    KeysIn(now);
    AddedNeither(was, now, now.keys);
    RemovedNeither(was, now, was.keys);
    ModifiedDefaultsFirst(was, now, was.keys);
    var prefix := Added(was, now, now.keys) + Removed(was, now, was.keys);
    assert forall c <- prefix :: !IsNullChange(c) && !IsDefaultChange(c);
    assert forall i :: 0 <= i < |prefix| ==> prefix[i] in prefix;
    DefaultsFirstInAppend(prefix, Modified(was, now, was.keys));
  }

  lemma OnDefaultsFirst(table: string, cs: seq<ColumnChange>)
    requires DefaultsFirstIn(cs)
    ensures DefaultsFirst(On(table, cs))
    ensures forall c <- On(table, cs) :: c.AlterTable? && c.table == table
  {
  }

  lemma {:induction false} KeptDefaultsFirst(before: Version, after: Version, keys: seq<string>)
    requires OneTableEach(after) && Distinct(keys) && forall k <- keys :: k in before.at
    ensures DefaultsFirst(Kept(before, after, keys))
    ensures forall c <- Kept(before, after, keys) ::
      c.AlterTable? && exists k :: k in keys && k in after.at && after.at[k].tableName == c.table
  {
    if keys != [] {
      var init, last := keys[..|keys| - 1], keys[|keys| - 1];
      assert keys == init + [last];
      KeptDefaultsFirst(before, after, init);
      assert last !in init;
      if last in after.at {
        var cs := FieldsDiff(ByName(before.at[last].fields), ByName(after.at[last].fields));
        FieldsDefaultsFirst(ByName(before.at[last].fields), ByName(after.at[last].fields));
        OnDefaultsFirst(after.at[last].tableName, cs);
        var a, b := Kept(before, after, init), EntityDiff(before.at[last], after.at[last]);
        assert Kept(before, after, keys) == a + b;
        forall x, y | x in a && y in b ensures x.table != y.table {
          var k :| k in init && k in after.at && after.at[k].tableName == x.table;
        }
        DefaultsFirstAppend(a, b);
      }
    }
  }

  lemma DefaultsFirstAppend(a: seq<Change>, b: seq<Change>)
    requires DefaultsFirst(a) && DefaultsFirst(b)
    requires forall x, y :: x in a && y in b && x.AlterTable? && y.AlterTable? ==> x.table != y.table
    ensures DefaultsFirst(a + b)
  {
    var cs := a + b;
    forall i, j | 0 <= i < j < |cs|
      ensures cs[i].AlterTable? && cs[j].AlterTable?
        && IsNullChange(cs[i].column) && IsDefaultChange(cs[j].column) && cs[i].table == cs[j].table
        ==> cs[i].column.name != cs[j].column.name
    {
      if i < |a| <= j {
        assert cs[i] in a && cs[j] in b;
      } else if i >= |a| {
        assert cs[i] == b[i - |a|] && cs[j] == b[j - |a|];
      }
    }
  }

  lemma {:induction false} TablesNeither(before: Version, after: Version, ks: seq<string>, ds: seq<string>)
    requires (forall k <- ks :: k in after.at) && forall d <- ds :: d in before.at
    ensures forall c <- Created(before, after, ks) + Dropped(before, after, ds) :: !c.AlterTable?
    decreases |ks| + |ds|
  {
    if ks != [] {
      TablesNeither(before, after, ks[..|ks| - 1], ds);
    } else if ds != [] {
      TablesNeither(before, after, ks, ds[..|ds| - 1]);
    }
  }

  /** In every migration a column's default changes before its nullability does. */
  lemma DiffDefaultsFirst(before: Version, after: Version)
    requires before.Ok() && OneTableEach(after)
    ensures DefaultsFirst(Diff(before, after))
  {
    KeysIn(before);
    KeysIn(after);
    KeptDefaultsFirst(before, after, before.keys);
    TablesNeither(before, after, after.keys, before.keys);
    var prefix := Created(before, after, after.keys) + Dropped(before, after, before.keys);
    assert forall i :: 0 <= i < |prefix| ==> prefix[i] in prefix;
    DefaultsFirstAppend(prefix, Kept(before, after, before.keys));
  }

  // ----- Histories -----

  ghost predicate History(history: seq<Version>) {
    forall i :: 0 <= i < |history| ==> OneTableEach(history[i])
  }

  /** Consecutive versions between which the differ is exact. */
  ghost predicate Linked(history: seq<Version>) {
    && History(history)
    && (forall i :: 0 <= i < |history| - 1 ==> Carries(history[i], history[i + 1]))
  }

  /** Migration bodies, each carrying one state of the database to the next. */
  ghost predicate Chained(states: seq<Tables>, bodies: seq<seq<Change>>) {
    && |states| == |bodies| + 1
    && forall i :: 0 <= i < |bodies| ==> ExecAll(states[i], bodies[i]) == Some(states[i + 1])
  }

  ghost function Concat(bodies: seq<seq<Change>>, i: nat, j: nat): seq<Change>
    requires i <= j <= |bodies|
  {
    if i == j then [] else Concat(bodies, i, j - 1) + bodies[j - 1]
  }

  lemma {:induction false} ChainExec(states: seq<Tables>, bodies: seq<seq<Change>>, i: nat, j: nat)
    requires Chained(states, bodies) && i <= j <= |bodies|
    ensures ExecAll(states[i], Concat(bodies, i, j)) == Some(states[j])
    decreases j
  {
    if i < j {
      ChainExec(states, bodies, i, j - 1);
      ExecAllAppend(states[i], Concat(bodies, i, j - 1), bodies[j - 1]);
    }
  }

  ghost function States(history: seq<Version>): seq<Tables>
    requires History(history)
  {
    seq(|history|, i requires 0 <= i < |history| => TablesOf(history[i]))
  }

  ghost function Bodies(history: seq<Version>): seq<seq<Change>>
    requires History(history) && history != []
  {
    seq(|history| - 1, i requires 0 <= i < |history| - 1 => Diff(history[i], history[i + 1]))
  }

  /** Every migration of a history works, from its own version to the next, exactly when the
  history is linked. */
  lemma HistoryIsChained(history: seq<Version>)
    requires History(history) && history != []
    ensures Chained(States(history), Bodies(history)) <==> Linked(history)
  {
    hide ExecAll, Diff, TablesOf, Carries, OneTableEach, States, Bodies;
    var states, bodies := States(history), Bodies(history);
    assert |states| == |history| == |bodies| + 1 by { Lengths(history); }
    forall i | 0 <= i < |bodies|
      ensures ExecAll(states[i], bodies[i]) == Some(states[i + 1]) <==> Carries(history[i], history[i + 1])
    {
      OneLink(history, i);
    }
  }

  lemma Lengths(history: seq<Version>)
    requires History(history) && history != []
    ensures |States(history)| == |history| == |Bodies(history)| + 1
  {
  }

  lemma OneLink(history: seq<Version>, i: nat)
    requires History(history) && i + 1 < |history|
    ensures |States(history)| == |history| == |Bodies(history)| + 1
    ensures ExecAll(States(history)[i], Bodies(history)[i]) == Some(States(history)[i + 1])
      <==> Carries(history[i], history[i + 1])
  {
    hide ExecAll, Diff, TablesOf, Carries, OneTableEach;
    DiffIsExactly(history[i], history[i + 1]);
  }

  /** Over any history the migrations carry any version to any later one. */
  lemma HistoryIsExact(history: seq<Version>, i: nat, j: nat)
    requires Linked(history) && i <= j < |history|
    ensures ExecAll(States(history)[i], Concat(Bodies(history), i, j)) == Some(States(history)[j])
  {
    HistoryIsChained(history);
    ChainExec(States(history), Bodies(history), i, j);
  }
}
