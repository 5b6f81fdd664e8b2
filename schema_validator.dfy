/**
 * Reconciliation of the declared entities with the live columns of the database:
 * missing columns are added, undeclared live columns are dropped.
 */
module SchemaValidation {
  import opened Wrappers
  import opened Text
  import opened DdlGenerator

  /** A row of `information_schema.COLUMNS`, reduced to TABLE_SCHEMA, TABLE_NAME and COLUMN_NAME. */
  datatype LiveColumn = LiveColumn(tableSchema: string, tableName: string, columnName: string)

  /** A corrective statement before it is rendered as SQL text. */
  datatype Statement =
    | AddColumn(table: string, column: Column)
    | DropColumn(table: string, columnName: string)

  /** The text handed to `template.update`; an added column is `appendFieldDDL`'s line without its commas. */
  function Sql(s: Statement): string
  {
    match s
    case AddColumn(t, c) => "ALTER TABLE " + t + " ADD COLUMN " + RemoveAll(ColumnLine(c), ',')
    case DropColumn(t, n) => "ALTER TABLE " + t + " DROP " + n
  }

  function Sqls(ss: seq<Statement>): seq<string>
  {
    if |ss| == 0 then [] else [Sql(ss[0])] + Sqls(ss[1..])
  }

  lemma {:induction false} SqlsSpec(ss: seq<Statement>)
    ensures |Sqls(ss)| == |ss|
    ensures forall i :: 0 <= i < |ss| ==> Sqls(ss)[i] == Sql(ss[i])
  {
    if |ss| > 0 {
      SqlsSpec(ss[1..]);
    }
  }

  lemma {:induction false} SqlsAppend(a: seq<Statement>, b: seq<Statement>)
    ensures Sqls(a + b) == Sqls(a) + Sqls(b)
  {
    if |a| == 0 {
      assert a + b == b;
    } else {
      assert (a + b)[0] == a[0];
      assert (a + b)[1..] == a[1..] + b;
      SqlsAppend(a[1..], b);
      Assoc([Sql(a[0])], Sqls(a[1..]), Sqls(b));
    }
  }

  // ---------------------------------------------------------------------------
  // The database connection and the effect of a sequence of updates

  /**
   * `NamedParameterJdbcTemplate.update`: a statement either takes effect (it is appended
   * to `log`) or throws; which statements throw is fixed by `rejects`.
   */
  class Connection {
    /** The rows of `information_schema.COLUMNS` while the snapshot is taken. */
    const catalog: seq<LiveColumn>
    const rejects: set<string>
    var log: seq<string>

    constructor (catalog: seq<LiveColumn>, rejects: set<string>)
      ensures this.catalog == catalog && this.rejects == rejects && log == []
    {
      this.catalog := catalog;
      this.rejects := rejects;
      log := [];
    }

    /** `template.query(QUERY_FOR_COLUMNS, params, …)`; it changes nothing. */
    method QueryColumns(schema: string, table: string) returns (rows: seq<LiveColumn>)
      ensures rows == Query(catalog, schema, table)
    {
      rows := Query(catalog, schema, table);
    }

    method Update(sql: string) returns (ok: bool)
      modifies this
      ensures ok <==> sql !in rejects
      ensures log == old(log) + (if ok then [sql] else [])
    {
      ok := sql !in rejects;
      if ok {
        log := log + [sql];
      }
    }
  }

  predicate AllAccepted(stmts: seq<string>, rejects: set<string>)
  {
    forall i :: 0 <= i < |stmts| ==> stmts[i] !in rejects
  }

  /**
   * The statements that take effect when they are issued in order inside one `try`:
   * the longest prefix with no rejected statement; the first rejected one stops the rest.
   */
  function Applied(stmts: seq<string>, rejects: set<string>): seq<string>
  {
    if |stmts| == 0 || stmts[0] in rejects then [] else [stmts[0]] + Applied(stmts[1..], rejects)
  }

  /** What took effect is a prefix with no rejected statement, cut at the first rejected one. */
  lemma {:induction false} AppliedSpec(stmts: seq<string>, rejects: set<string>)
    ensures Applied(stmts, rejects) <= stmts
    ensures AllAccepted(Applied(stmts, rejects), rejects)
    ensures |Applied(stmts, rejects)| < |stmts| ==> stmts[|Applied(stmts, rejects)|] in rejects
    ensures Applied(stmts, rejects) == stmts <==> AllAccepted(stmts, rejects)
  {
    if |stmts| > 0 && stmts[0] !in rejects {
      AppliedSpec(stmts[1..], rejects);
      var r := Applied(stmts[1..], rejects);
      assert forall i :: 1 <= i < |stmts| ==> stmts[i] == stmts[1..][i - 1];
      assert forall i :: 1 <= i < |[stmts[0]] + r| ==> ([stmts[0]] + r)[i] == r[i - 1];
      if AllAccepted(stmts, rejects) {
        assert AllAccepted(stmts[1..], rejects);
        assert stmts == [stmts[0]] + stmts[1..];
      }
    }
  }

  /** Issuing `a` and then `b` in one `try`: `b` runs only if all of `a` went through. */
  lemma {:induction false} AppliedAppend(a: seq<string>, b: seq<string>, rejects: set<string>)
    ensures Applied(a + b, rejects) == if AllAccepted(a, rejects) then a + Applied(b, rejects) else Applied(a, rejects)
  {
    if |a| == 0 {
      assert a + b == b;
    } else {
      assert (a + b)[0] == a[0];
      assert (a + b)[1..] == a[1..] + b;
      AppliedAppend(a[1..], b, rejects);
      if a[0] !in rejects && AllAccepted(a[1..], rejects) {
        assert AllAccepted(a, rejects);
        Assoc([a[0]], a[1..], Applied(b, rejects));
        assert [a[0]] + a[1..] == a;
      } else if a[0] !in rejects {
        assert !AllAccepted(a, rejects) by {
          var i :| 0 <= i < |a[1..]| && a[1..][i] in rejects;
          assert a[i + 1] in rejects;
        }
      }
    }
  }

  lemma SqlsCons(s: Statement, rest: seq<Statement>)
    ensures Sqls([s] + rest) == [Sql(s)] + Sqls(rest)
  {
    SqlsAppend([s], rest);
  }

  lemma {:induction false} AppliedCons(x: string, rest: seq<string>, rejects: set<string>)
    ensures Applied([x] + rest, rejects) == if x in rejects then [] else [x] + Applied(rest, rejects)
    ensures AllAccepted([x] + rest, rejects) <==> x !in rejects && AllAccepted(rest, rejects)
  {
    var all := [x] + rest;
    assert all[0] == x && all[1..] == rest;
    if x !in rejects && !AllAccepted(rest, rejects) {
      var i :| 0 <= i < |rest| && rest[i] in rejects;
      assert all[i + 1] in rejects;
    }
  }

  // ---------------------------------------------------------------------------
  // The live-column snapshot (`getEntitiesFromDB`)

  function TableNames(entities: seq<Entity>): set<string>
  {
    set i | 0 <= i < |entities| :: entities[i].table.name
  }

  /**
   * `QUERY_FOR_COLUMNS` for one table: the catalog rows whose TABLE_NAME is that table and
   * whose TABLE_SCHEMA is the validator's schema, in catalog order.
   */
  function Query(catalog: seq<LiveColumn>, schema: string, table: string): (r: seq<LiveColumn>)
    ensures forall i :: 0 <= i < |r| ==> r[i].tableName == table && r[i].tableSchema == schema
    ensures forall x :: x in r <==> x in catalog && x.tableName == table && x.tableSchema == schema
  {
    if |catalog| == 0 then []
    else
      (if catalog[0].tableName == table && catalog[0].tableSchema == schema then [catalog[0]] else [])
      + Query(catalog[1..], schema, table)
  }

  /** One key per declared table name, and every row filed under the table it belongs to. */
  predicate IsSnapshot(entities: seq<Entity>, live: map<string, seq<LiveColumn>>)
  {
    && live.Keys == TableNames(entities)
    && forall t, i :: t in live && 0 <= i < |live[t]| ==> live[t][i].tableName == t
  }

  /** What `getEntitiesFromDB` returns: each declared table name mapped to its query result. */
  function Snapshot(entities: seq<Entity>, catalog: seq<LiveColumn>, schema: string): (live: map<string, seq<LiveColumn>>)
    ensures IsSnapshot(entities, live)
    ensures forall t :: t in live ==> forall x :: x in live[t] <==> x in catalog && x.tableName == t && x.tableSchema == schema
  {
    map t | t in TableNames(entities) :: Query(catalog, schema, t)
  }

  lemma SnapshotSnoc(entities: seq<Entity>, e: Entity, catalog: seq<LiveColumn>, schema: string)
    ensures Snapshot(entities + [e], catalog, schema) == Snapshot(entities, catalog, schema)[e.table.name := Query(catalog, schema, e.table.name)]
  {
    assert TableNames(entities + [e]) == TableNames(entities) + {e.table.name} by {
      forall t | t in TableNames(entities + [e]) ensures t in TableNames(entities) + {e.table.name} {
        var i :| 0 <= i < |entities + [e]| && (entities + [e])[i].table.name == t;
        if i < |entities| {
          assert entities[i] == (entities + [e])[i];
        }
      }
      forall t | t in TableNames(entities) ensures t in TableNames(entities + [e]) {
        var i :| 0 <= i < |entities| && entities[i].table.name == t;
        assert (entities + [e])[i] == entities[i];
      }
      assert (entities + [e])[|entities|] == e;
    }
  }

  // ---------------------------------------------------------------------------
  // Missing columns (`exemineForMissingColumn`, `putMissingColumn`)

  predicate IsLive(rows: seq<LiveColumn>, name: string)
  {
    exists i :: 0 <= i < |rows| && rows[i].columnName == name
  }

  predicate Declares(fields: seq<Column>, name: string)
  {
    exists i :: 0 <= i < |fields| && fields[i].name == name
  }

  /** `columnsFromDb.stream().filter(name matches).findFirst()`. */
  function FindLive(rows: seq<LiveColumn>, name: string): (r: Option<LiveColumn>)
    ensures r.Some? <==> IsLive(rows, name)
    ensures r.Some? ==> r.value in rows && r.value.columnName == name
  {
    if |rows| == 0 then None
    else if rows[0].columnName == name then Some(rows[0])
    else
      var r := FindLive(rows[1..], name);
      assert IsLive(rows, name) ==> IsLive(rows[1..], name) by {
        if IsLive(rows, name) {
          var i :| 0 <= i < |rows| && rows[i].columnName == name;
          assert rows[1..][i - 1] == rows[i];
        }
      }
      assert IsLive(rows[1..], name) ==> IsLive(rows, name) by {
        if IsLive(rows[1..], name) {
          var i :| 0 <= i < |rows[1..]| && rows[1..][i].columnName == name;
          assert rows[i + 1] == rows[1..][i];
        }
      }
      r
  }

  function Lookup(m: map<string, seq<Column>>, t: string): seq<Column>
  {
    if t in m then m[t] else []
  }

  /** The effect of `putMissingColumn` on the map. */
  function PutMissing(m: map<string, seq<Column>>, t: string, c: Column): map<string, seq<Column>>
  {
    m[t := Lookup(m, t) + [c]]
  }

  /** The map after `exemineForMissingColumn` has gone through `fields`. */
  function MissingFor(m: map<string, seq<Column>>, t: string, fields: seq<Column>, rows: seq<LiveColumn>): map<string, seq<Column>>
    decreases |fields|
  {
    if |fields| == 0 then m
    else MissingFor(if FindLive(rows, fields[0].name).Some? then m else PutMissing(m, t, fields[0]), t, fields[1..], rows)
  }

  predicate DeclaredIn(entities: seq<Entity>, live: map<string, seq<LiveColumn>>)
  {
    forall i :: 0 <= i < |entities| ==> entities[i].table.name in live
  }

  /** The map after the entity loop of `validate` has gone through `entities`. */
  function MissingMap(m: map<string, seq<Column>>, entities: seq<Entity>, live: map<string, seq<LiveColumn>>): map<string, seq<Column>>
    requires DeclaredIn(entities, live)
    decreases |entities|
  {
    if |entities| == 0 then m
    else
      var t := entities[0].table.name;
      MissingMap(MissingFor(m, t, entities[0].fields, live[t]), entities[1..], live)
  }

  /** Reference definition: the fields with no live column of the same name, in declaration order. */
  function NotLive(fields: seq<Column>, rows: seq<LiveColumn>): seq<Column>
  {
    if |fields| == 0 then [] else (if IsLive(rows, fields[0].name) then [] else [fields[0]]) + NotLive(fields[1..], rows)
  }

  /** Reference definition: the missing columns of table `t`, entity by entity. */
  function MissingOf(entities: seq<Entity>, t: string, live: map<string, seq<LiveColumn>>): seq<Column>
    requires DeclaredIn(entities, live)
  {
    if |entities| == 0 then []
    else
      (if entities[0].table.name == t then NotLive(entities[0].fields, live[t]) else [])
      + MissingOf(entities[1..], t, live)
  }

  lemma {:induction false} MissingForSpec(m: map<string, seq<Column>>, t: string, fields: seq<Column>, rows: seq<LiveColumn>)
    decreases |fields|
    ensures forall u :: Lookup(MissingFor(m, t, fields, rows), u) == Lookup(m, u) + (if u == t then NotLive(fields, rows) else [])
    ensures forall u :: u in MissingFor(m, t, fields, rows) <==> u in m || (u == t && NotLive(fields, rows) != [])
  {
    if |fields| == 0 {
      forall u ensures Lookup(m, u) + [] == Lookup(m, u) { }
    } else {
      var f := fields[0];
      var m' := if FindLive(rows, f.name).Some? then m else PutMissing(m, t, f);
      MissingForSpec(m', t, fields[1..], rows);
      var here: seq<Column> := if IsLive(rows, f.name) then [] else [f];
      assert NotLive(fields, rows) == here + NotLive(fields[1..], rows);
      forall u
        ensures Lookup(MissingFor(m, t, fields, rows), u) == Lookup(m, u) + (if u == t then NotLive(fields, rows) else [])
      {
        if u == t {
          assert Lookup(m', u) == Lookup(m, u) + here;
          Assoc(Lookup(m, u), here, NotLive(fields[1..], rows));
        } else {
          assert Lookup(m', u) == Lookup(m, u);
        }
      }
    }
  }

  lemma {:induction false} MissingMapSpec(m: map<string, seq<Column>>, entities: seq<Entity>, live: map<string, seq<LiveColumn>>)
    requires DeclaredIn(entities, live)
    decreases |entities|
    ensures forall u :: Lookup(MissingMap(m, entities, live), u) == Lookup(m, u) + MissingOf(entities, u, live)
    ensures forall u :: u in MissingMap(m, entities, live) <==> u in m || MissingOf(entities, u, live) != []
  {
    if |entities| == 0 {
      forall u ensures Lookup(m, u) + [] == Lookup(m, u) { }
    } else {
      var t := entities[0].table.name;
      var m' := MissingFor(m, t, entities[0].fields, live[t]);
      MissingForSpec(m, t, entities[0].fields, live[t]);
      MissingMapSpec(m', entities[1..], live);
      forall u
        ensures Lookup(MissingMap(m, entities, live), u) == Lookup(m, u) + MissingOf(entities, u, live)
      {
        var here := if t == u then NotLive(entities[0].fields, live[u]) else [];
        assert MissingOf(entities, u, live) == here + MissingOf(entities[1..], u, live);
        Assoc(Lookup(m, u), here, MissingOf(entities[1..], u, live));
      }
    }
  }

  lemma {:induction false} NotLiveMember(fields: seq<Column>, rows: seq<LiveColumn>, c: Column)
    ensures c in NotLive(fields, rows) <==> c in fields && !IsLive(rows, c.name)
  {
    if |fields| > 0 {
      NotLiveMember(fields[1..], rows, c);
      assert c in fields <==> c == fields[0] || c in fields[1..] by {
        assert fields == [fields[0]] + fields[1..];
      }
    }
  }

  lemma {:induction false} MissingOfMember(entities: seq<Entity>, t: string, live: map<string, seq<LiveColumn>>, c: Column)
    requires DeclaredIn(entities, live)
    ensures c in MissingOf(entities, t, live) <==>
      exists i :: 0 <= i < |entities| && entities[i].table.name == t && c in entities[i].fields && !IsLive(live[t], c.name)
  {
    if |entities| > 0 {
      MissingOfMember(entities[1..], t, live, c);
      NotLiveMember(entities[0].fields, live[entities[0].table.name], c);
      if exists i :: 0 <= i < |entities| && entities[i].table.name == t && c in entities[i].fields && !IsLive(live[t], c.name) {
        var i :| 0 <= i < |entities| && entities[i].table.name == t && c in entities[i].fields && !IsLive(live[t], c.name);
        if i > 0 {
          assert entities[1..][i - 1] == entities[i];
        }
      }
      if exists i :: 0 <= i < |entities[1..]| && entities[1..][i].table.name == t && c in entities[1..][i].fields && !IsLive(live[t], c.name) {
        var i :| 0 <= i < |entities[1..]| && entities[1..][i].table.name == t && c in entities[1..][i].fields && !IsLive(live[t], c.name);
        assert entities[i + 1] == entities[1..][i];
      }
    }
  }

  lemma {:induction false} MissingOfDeclared(entities: seq<Entity>, t: string, live: map<string, seq<LiveColumn>>)
    requires DeclaredIn(entities, live)
    requires MissingOf(entities, t, live) != []
    ensures t in TableNames(entities)
  {
    if entities[0].table.name != t || NotLive(entities[0].fields, live[t]) == [] {
      MissingOfDeclared(entities[1..], t, live);
      var i :| 0 <= i < |entities[1..]| && entities[1..][i].table.name == t;
      assert entities[i + 1].table.name == t;
    }
  }

  /**
   * A declared field is recorded as missing for its table exactly when no live column of
   * that table has the same name; type, length and nullability play no part.
   */
  lemma MissingIff(entities: seq<Entity>, live: map<string, seq<LiveColumn>>, t: string, c: Column)
    requires DeclaredIn(entities, live)
    ensures c in Lookup(MissingMap(map[], entities, live), t) <==>
      exists i :: 0 <= i < |entities| && entities[i].table.name == t && c in entities[i].fields && !IsLive(live[t], c.name)
    ensures t in MissingMap(map[], entities, live) ==> t in TableNames(entities)
  {
    MissingMapSpec(map[], entities, live);
    assert Lookup(map[], t) + MissingOf(entities, t, live) == MissingOf(entities, t, live);
    MissingOfMember(entities, t, live, c);
    if t in MissingMap(map[], entities, live) {
      MissingOfDeclared(entities, t, live);
    }
  }

  // ---------------------------------------------------------------------------
  // The corrective statements, in the order `validate` issues them

  /**
   * The keys of `m` in the map's iteration order. Java's HashMap order is modelled by
   * `order`, a sequence of table names; each map of `validate` has its own.
   */
  function MapOrder<V>(order: seq<string>, m: map<string, V>): (keys: seq<string>)
    ensures KeysIn(keys, m)
  {
    if |order| == 0 then [] else (if order[0] in m then [order[0]] else []) + MapOrder(order[1..], m)
  }

  /** The iteration visits exactly the keys of the map that `order` lists. */
  lemma {:induction false} MapOrderMember<V>(order: seq<string>, m: map<string, V>, k: string)
    ensures k in MapOrder(order, m) <==> k in order && k in m
  {
    if |order| > 0 {
      MapOrderMember(order[1..], m, k);
      assert k in order <==> k == order[0] || k in order[1..] by {
        assert order == [order[0]] + order[1..];
      }
    }
  }

  predicate KeysIn<V>(keys: seq<string>, m: map<string, V>)
  {
    forall i :: 0 <= i < |keys| ==> keys[i] in m
  }

  lemma KeysSuffix<V>(keys: seq<string>, m: map<string, V>, i: nat)
    requires KeysIn(keys, m) && i <= |keys|
    ensures KeysIn(keys[i..], m)
  {
    forall k | 0 <= k < |keys[i..]| ensures keys[i..][k] in m {
      assert keys[i..][k] == keys[i + k];
    }
  }

  /** Each declared table name occurs in `order` exactly once. */
  predicate HashOrder(order: seq<string>, entities: seq<Entity>)
  {
    && (forall i, j :: 0 <= i < j < |order| ==> order[i] != order[j])
    && (forall t :: t in TableNames(entities) ==> t in order)
  }

  /** The statements `addMissingColumns` issues for one entry of the missing-column map. */
  function AddsFor(t: string, columns: seq<Column>): (r: seq<Statement>)
    ensures |r| == |columns|
    ensures forall i :: 0 <= i < |r| ==> r[i] == AddColumn(t, columns[i])
  {
    if |columns| == 0 then [] else [AddColumn(t, columns[0])] + AddsFor(t, columns[1..])
  }

  function AddsOver(keys: seq<string>, missing: map<string, seq<Column>>): (r: seq<Statement>)
    requires KeysIn(keys, missing)
    ensures forall i :: 0 <= i < |r| ==> r[i].AddColumn?
  {
    if |keys| == 0 then [] else AddsFor(keys[0], missing[keys[0]]) + AddsOver(keys[1..], missing)
  }

  /** `entities.stream().filter(table name matches).findFirst().get()`, as an index. */
  function FirstIndex(entities: seq<Entity>, name: string): (i: nat)
    requires name in TableNames(entities)
    ensures i < |entities| && entities[i].table.name == name
    ensures forall j :: 0 <= j < i ==> entities[j].table.name != name
  {
    if entities[0].table.name == name then 0
    else
      assert name in TableNames(entities[1..]) by {
        var k :| 0 <= k < |entities| && entities[k].table.name == name;
        assert entities[1..][k - 1] == entities[k];
      }
      1 + FirstIndex(entities[1..], name)
  }

  /** `isColumnNotExist`: no declared field of the entity has the live column's name. */
  predicate IsColumnNotExist(row: LiveColumn, target: Entity)
  {
    forall i :: 0 <= i < |target.fields| ==> target.fields[i].name != row.columnName
  }

  /** A live column "does not exist" in an entity exactly when the entity declares no field of its name. */
  lemma IsColumnNotExistIff(row: LiveColumn, target: Entity)
    ensures IsColumnNotExist(row, target) <==> !Declares(target.fields, row.columnName)
  {
  }

  /** The statements `deleteColumns` issues for the rows of one table. */
  function DropsForRows(entities: seq<Entity>, rows: seq<LiveColumn>): (r: seq<Statement>)
    requires FiledIn(entities, rows)
    ensures forall i :: 0 <= i < |r| ==> r[i].DropColumn?
  {
    if |rows| == 0 then []
    else
      var target := entities[FirstIndex(entities, rows[0].tableName)];
      (if IsColumnNotExist(rows[0], target) then [DropColumn(target.table.name, rows[0].columnName)] else [])
      + DropsForRows(entities, rows[1..])
  }

  function DropsOver(entities: seq<Entity>, keys: seq<string>, live: map<string, seq<LiveColumn>>): (r: seq<Statement>)
    requires IsSnapshot(entities, live)
    requires KeysIn(keys, live)
    ensures forall i :: 0 <= i < |r| ==> r[i].DropColumn?
  {
    if |keys| == 0 then [] else DropsForRows(entities, live[keys[0]]) + DropsOver(entities, keys[1..], live)
  }

  /** All statements of one `validate` pass: every ADD COLUMN, then every DROP. */
  function Plan(entities: seq<Entity>, live: map<string, seq<LiveColumn>>, addOrder: seq<string>, dropOrder: seq<string>): seq<Statement>
    requires IsSnapshot(entities, live)
  {
    var missing := MissingMap(map[], entities, live);
    AddsOver(MapOrder(addOrder, missing), missing) + DropsOver(entities, MapOrder(dropOrder, live), live)
  }

  // ---------------------------------------------------------------------------
  // Properties of the plan

  /** Every ADD COLUMN is issued before any DROP. */
  lemma AddsBeforeDrops(entities: seq<Entity>, live: map<string, seq<LiveColumn>>, addOrder: seq<string>, dropOrder: seq<string>)
    requires IsSnapshot(entities, live)
    ensures var p := Plan(entities, live, addOrder, dropOrder);
      forall i, j :: 0 <= i < j < |p| && p[i].DropColumn? ==> p[j].DropColumn?
  {
    var missing := MissingMap(map[], entities, live);
    var adds := AddsOver(MapOrder(addOrder, missing), missing);
    var drops := DropsOver(entities, MapOrder(dropOrder, live), live);
    var p := adds + drops;
    forall i, j | 0 <= i < j < |p| && p[i].DropColumn?
      ensures p[j].DropColumn?
    {
      assert i >= |adds|;
      assert p[j] == drops[j - |adds|];
    }
  }

  lemma {:induction false} AddsOverMember(keys: seq<string>, missing: map<string, seq<Column>>, t: string, c: Column)
    requires KeysIn(keys, missing)
    ensures AddColumn(t, c) in AddsOver(keys, missing) <==> t in keys && c in missing[t]
  {
    if |keys| > 0 {
      AddsOverMember(keys[1..], missing, t, c);
      var here := AddsFor(keys[0], missing[keys[0]]);
      assert AddColumn(t, c) in here <==> t == keys[0] && c in missing[keys[0]] by {
        if AddColumn(t, c) in here {
          var i :| 0 <= i < |here| && here[i] == AddColumn(t, c);
        }
        if t == keys[0] && c in missing[keys[0]] {
          var i :| 0 <= i < |missing[keys[0]]| && missing[keys[0]][i] == c;
          assert here[i] == AddColumn(t, c);
        }
      }
      assert t in keys <==> t == keys[0] || t in keys[1..] by {
        assert keys == [keys[0]] + keys[1..];
      }
    }
  }

  /**
   * A column is added to table `t` exactly when some entity of that table declares it and
   * no live column of `t` has its name.
   */
  lemma PlanAddIff(entities: seq<Entity>, live: map<string, seq<LiveColumn>>, addOrder: seq<string>, dropOrder: seq<string>, t: string, c: Column)
    requires IsSnapshot(entities, live) && HashOrder(addOrder, entities)
    ensures AddColumn(t, c) in Plan(entities, live, addOrder, dropOrder) <==>
      exists i :: 0 <= i < |entities| && entities[i].table.name == t && c in entities[i].fields && !IsLive(live[t], c.name)
  {
    var missing := MissingMap(map[], entities, live);
    var keys := MapOrder(addOrder, missing);
    var adds := AddsOver(keys, missing);
    var drops := DropsOver(entities, MapOrder(dropOrder, live), live);
    assert AddColumn(t, c) in adds + drops <==> AddColumn(t, c) in adds;
    AddsOverMember(keys, missing, t, c);
    MapOrderMember(addOrder, missing, t);
    MissingIff(entities, live, t, c);
    if exists i :: 0 <= i < |entities| && entities[i].table.name == t && c in entities[i].fields && !IsLive(live[t], c.name) {
      var i :| 0 <= i < |entities| && entities[i].table.name == t && c in entities[i].fields && !IsLive(live[t], c.name);
      assert t in TableNames(entities);
      assert c in Lookup(missing, t);
    }
  }

  lemma {:induction false} DropsForRowsMember(entities: seq<Entity>, rows: seq<LiveColumn>, k: string, t: string, n: string)
    requires forall i :: 0 <= i < |rows| ==> rows[i].tableName == k
    requires k in TableNames(entities)
    ensures DropColumn(t, n) in DropsForRows(entities, rows) <==>
      t == k && IsLive(rows, n) && !Declares(entities[FirstIndex(entities, k)].fields, n)
  {
    if |rows| > 0 {
      DropsForRowsMember(entities, rows[1..], k, t, n);
      var target := entities[FirstIndex(entities, k)];
      var here := if IsColumnNotExist(rows[0], target) then [DropColumn(target.table.name, rows[0].columnName)] else [];
      assert DropsForRows(entities, rows) == here + DropsForRows(entities, rows[1..]);
      IsColumnNotExistIff(rows[0], target);
      assert IsLive(rows, n) <==> rows[0].columnName == n || IsLive(rows[1..], n) by {
        if IsLive(rows, n) {
          var i :| 0 <= i < |rows| && rows[i].columnName == n;
          if i > 0 {
            assert rows[1..][i - 1] == rows[i];
          }
        }
        if IsLive(rows[1..], n) {
          var i :| 0 <= i < |rows[1..]| && rows[1..][i].columnName == n;
          assert rows[i + 1] == rows[1..][i];
        }
      }
    }
  }

  lemma {:induction false} DropsOverMember(entities: seq<Entity>, keys: seq<string>, live: map<string, seq<LiveColumn>>, t: string, n: string)
    requires IsSnapshot(entities, live)
    requires KeysIn(keys, live)
    ensures DropColumn(t, n) in DropsOver(entities, keys, live) <==>
      t in keys && IsLive(live[t], n) && !Declares(entities[FirstIndex(entities, t)].fields, n)
  {
    if |keys| > 0 {
      DropsOverMember(entities, keys[1..], live, t, n);
      DropsForRowsMember(entities, live[keys[0]], keys[0], t, n);
      assert t in keys <==> t == keys[0] || t in keys[1..] by {
        assert keys == [keys[0]] + keys[1..];
      }
    }
  }

  /**
   * A live column of table `t` is dropped exactly when the first entity of that table
   * declares no field with its name.
   */
  lemma PlanDropIff(entities: seq<Entity>, live: map<string, seq<LiveColumn>>, addOrder: seq<string>, dropOrder: seq<string>, t: string, n: string)
    requires IsSnapshot(entities, live) && HashOrder(dropOrder, entities)
    ensures DropColumn(t, n) in Plan(entities, live, addOrder, dropOrder) <==>
      t in live && IsLive(live[t], n) && !Declares(entities[FirstIndex(entities, t)].fields, n)
  {
    var missing := MissingMap(map[], entities, live);
    var adds := AddsOver(MapOrder(addOrder, missing), missing);
    var keys := MapOrder(dropOrder, live);
    var drops := DropsOver(entities, keys, live);
    assert DropColumn(t, n) in adds + drops <==> DropColumn(t, n) in drops;
    DropsOverMember(entities, keys, live, t, n);
    MapOrderMember(dropOrder, live, t);
  }

  /** No column name is both added to and dropped from the same table in one pass. */
  lemma NoAddAndDrop(entities: seq<Entity>, live: map<string, seq<LiveColumn>>, addOrder: seq<string>, dropOrder: seq<string>, t: string, c: Column, n: string)
    requires IsSnapshot(entities, live) && HashOrder(addOrder, entities) && HashOrder(dropOrder, entities)
    requires AddColumn(t, c) in Plan(entities, live, addOrder, dropOrder)
    requires DropColumn(t, n) in Plan(entities, live, addOrder, dropOrder)
    ensures c.name != n
  {
    PlanAddIff(entities, live, addOrder, dropOrder, t, c);
    PlanDropIff(entities, live, addOrder, dropOrder, t, n);
  }

  /** Each declared table's live column names are exactly its declared field names. */
  ghost predicate Converged(entities: seq<Entity>, live: map<string, seq<LiveColumn>>)
  {
    forall i :: 0 <= i < |entities| ==>
      entities[i].table.name in live &&
      forall n :: IsLive(live[entities[i].table.name], n) <==> Declares(entities[i].fields, n)
  }

  lemma {:induction false} NotLiveEmpty(fields: seq<Column>, rows: seq<LiveColumn>)
    requires forall k :: 0 <= k < |fields| ==> IsLive(rows, fields[k].name)
    ensures NotLive(fields, rows) == []
  {
    if |fields| > 0 {
      assert IsLive(rows, fields[0].name);
      NotLiveEmpty(fields[1..], rows);
    }
  }

  lemma {:induction false} MissingOfEmpty(entities: seq<Entity>, t: string, live: map<string, seq<LiveColumn>>)
    requires DeclaredIn(entities, live) && Converged(entities, live)
    ensures MissingOf(entities, t, live) == []
  {
    if |entities| > 0 {
      if entities[0].table.name == t {
        forall k | 0 <= k < |entities[0].fields|
          ensures IsLive(live[t], entities[0].fields[k].name)
        {
          assert Declares(entities[0].fields, entities[0].fields[k].name);
        }
        NotLiveEmpty(entities[0].fields, live[t]);
      }
      MissingOfEmpty(entities[1..], t, live);
    }
  }

  lemma {:induction false} DropsForRowsEmpty(entities: seq<Entity>, rows: seq<LiveColumn>)
    requires forall i :: 0 <= i < |rows| ==> rows[i].tableName in TableNames(entities)
    requires forall i :: 0 <= i < |rows| ==> !IsColumnNotExist(rows[i], entities[FirstIndex(entities, rows[i].tableName)])
    ensures DropsForRows(entities, rows) == []
  {
    if |rows| > 0 {
      DropsForRowsEmpty(entities, rows[1..]);
    }
  }

  lemma {:induction false} DropsOverEmpty(entities: seq<Entity>, keys: seq<string>, live: map<string, seq<LiveColumn>>)
    requires IsSnapshot(entities, live) && Converged(entities, live)
    requires KeysIn(keys, live)
    ensures DropsOver(entities, keys, live) == []
  {
    if |keys| > 0 {
      var k := keys[0];
      var rows := live[k];
      var target := FirstIndex(entities, k);
      forall j | 0 <= j < |rows|
        ensures !IsColumnNotExist(rows[j], entities[FirstIndex(entities, rows[j].tableName)])
      {
        assert rows[j].tableName == k;
        assert IsLive(rows, rows[j].columnName);
        var f :| 0 <= f < |entities[target].fields| && entities[target].fields[f].name == rows[j].columnName;
      }
      DropsForRowsEmpty(entities, rows);
      DropsOverEmpty(entities, keys[1..], live);
    }
  }

  /** A live schema equal to the declared one yields no statement at all. */
  lemma Convergence(entities: seq<Entity>, live: map<string, seq<LiveColumn>>, addOrder: seq<string>, dropOrder: seq<string>)
    requires IsSnapshot(entities, live) && Converged(entities, live)
    ensures Plan(entities, live, addOrder, dropOrder) == []
  {
    var missing := MissingMap(map[], entities, live);
    MissingMapSpec(map[], entities, live);
    forall u ensures u !in missing {
      MissingOfEmpty(entities, u, live);
    }
    DropsOverEmpty(entities, MapOrder(dropOrder, live), live);
  }

  lemma ClauseNoComma(c: Column)
    requires ',' !in c.name && ',' !in c.dataType
    ensures ',' !in "'" + c.name + "'   " + TypeToString(c) + AddOtherConstraints(c)
  {
    var digits := IntToString(c.length as int);
    IntToStringChars(c.length as int);
    assert ',' !in "(" + digits + ")";
  }

  /**
   * An ADD COLUMN statement carries the same clause as the column's line in the create
   * script, without its separator, provided the name and data type hold no comma.
   */
  lemma AddColumnSql(t: string, c: Column)
    requires ',' !in c.name && ',' !in c.dataType
    ensures var line := ColumnLine(c);
      Sql(AddColumn(t, c)) == "ALTER TABLE " + t + " ADD COLUMN " + line[..|line| - 2] + "\n"
  {
    var clause := "'" + c.name + "'   " + TypeToString(c) + AddOtherConstraints(c);
    ClauseNoComma(c);
    StripSeparator(clause);
    assert ColumnLine(c) == clause + ",\n";
  }

  /** Removing the commas of a comma-free clause followed by `,\n` drops just the separator's comma. */
  lemma StripSeparator(clause: string)
    requires ',' !in clause
    ensures RemoveAll(clause + ",\n", ',') == clause + "\n"
    ensures (clause + ",\n")[..|clause| + 2 - 2] == clause
  {
    RemoveAllAppend(clause, ",\n", ',');
    assert RemoveAll(",\n", ',') == "\n";
  }

  // ---------------------------------------------------------------------------
  // Unfolding lemmas for the loops of `addMissingColumns` and `deleteColumns`

  lemma AddsForStep(t: string, columns: seq<Column>, j: nat, rest: seq<Statement>)
    requires j < |columns|
    ensures [AddColumn(t, columns[j])] + (AddsFor(t, columns[j + 1..]) + rest) == AddsFor(t, columns[j..]) + rest
  {
    assert columns[j..][1..] == columns[j + 1..];
    Assoc([AddColumn(t, columns[j])], AddsFor(t, columns[j + 1..]), rest);
  }

  lemma AddsOverStep(keys: seq<string>, missing: map<string, seq<Column>>, i: nat)
    requires i < |keys|
    requires KeysIn(keys, missing)
    ensures AddsOver(keys[i..], missing) == AddsFor(keys[i], missing[keys[i]]) + AddsOver(keys[i + 1..], missing)
  {
    assert keys[i..][1..] == keys[i + 1..];
  }

  /** Every row belongs to a declared table. */
  predicate FiledIn(entities: seq<Entity>, rows: seq<LiveColumn>)
  {
    forall k :: 0 <= k < |rows| ==> rows[k].tableName in TableNames(entities)
  }

  lemma RowsFiled(entities: seq<Entity>, live: map<string, seq<LiveColumn>>, t: string)
    requires IsSnapshot(entities, live) && t in live
    ensures FiledIn(entities, live[t])
  {
  }

  lemma FiledSuffix(entities: seq<Entity>, rows: seq<LiveColumn>, j: nat)
    requires FiledIn(entities, rows) && j <= |rows|
    ensures FiledIn(entities, rows[j..])
  {
    forall k | 0 <= k < |rows[j..]| ensures rows[j..][k].tableName in TableNames(entities) {
      assert rows[j..][k] == rows[j + k];
    }
  }

  lemma DropsForRowsStep(entities: seq<Entity>, rows: seq<LiveColumn>, j: nat, rest: seq<Statement>)
    requires j < |rows|
    requires FiledIn(entities, rows)
    ensures var target := entities[FirstIndex(entities, rows[j].tableName)];
      var next := DropsForRows(entities, rows[j + 1..]) + rest;
      && (IsColumnNotExist(rows[j], target) ==> [DropColumn(target.table.name, rows[j].columnName)] + next == DropsForRows(entities, rows[j..]) + rest)
      && (!IsColumnNotExist(rows[j], target) ==> next == DropsForRows(entities, rows[j..]) + rest)
  {
    assert rows[j..][1..] == rows[j + 1..];
    assert rows[j..][0] == rows[j];
    var target := entities[FirstIndex(entities, rows[j].tableName)];
    var here := if IsColumnNotExist(rows[j], target) then [DropColumn(target.table.name, rows[j].columnName)] else [];
    Assoc(here, DropsForRows(entities, rows[j + 1..]), rest);
    assert [] + (DropsForRows(entities, rows[j + 1..]) + rest) == DropsForRows(entities, rows[j + 1..]) + rest;
  }

  lemma DropsOverStep(entities: seq<Entity>, keys: seq<string>, live: map<string, seq<LiveColumn>>, i: nat)
    requires IsSnapshot(entities, live)
    requires i < |keys|
    requires KeysIn(keys, live)
    ensures DropsOver(entities, keys[i..], live) == DropsForRows(entities, live[keys[i]]) + DropsOver(entities, keys[i + 1..], live)
  {
    assert keys[i..][1..] == keys[i + 1..];
  }

  lemma AllAcceptedAppend(a: seq<string>, b: seq<string>, rejects: set<string>)
    ensures AllAccepted(a + b, rejects) <==> AllAccepted(a, rejects) && AllAccepted(b, rejects)
  {
    if AllAccepted(a, rejects) && AllAccepted(b, rejects) {
      forall i | 0 <= i < |a + b| ensures (a + b)[i] !in rejects {
        if i >= |a| {
          assert (a + b)[i] == b[i - |a|];
        }
      }
    }
    if AllAccepted(a + b, rejects) {
      forall i | 0 <= i < |b| ensures b[i] !in rejects {
        assert (a + b)[|a| + i] == b[i];
      }
      forall i | 0 <= i < |a| ensures a[i] !in rejects {
        assert (a + b)[i] == a[i];
      }
    }
  }

  /** A statement that goes through extends the log and keeps "all accepted so far". */
  lemma AcceptStep(start: seq<string>, done: seq<Statement>, s: Statement, rejects: set<string>)
    requires AllAccepted(Sqls(done), rejects) && Sql(s) !in rejects
    ensures (start + Sqls(done)) + [Sql(s)] == start + Sqls(done + [s])
    ensures AllAccepted(Sqls(done + [s]), rejects)
  {
    SqlsAppend(done, [s]);
    assert Sqls([s]) == [Sql(s)];
    AllAcceptedAppend(Sqls(done), [Sql(s)], rejects);
    Assoc(start, Sqls(done), [Sql(s)]);
  }

  /** A statement that fails leaves the log at the statements issued before it. */
  lemma FailStop(done: seq<Statement>, s: Statement, rest: seq<Statement>, rejects: set<string>)
    requires AllAccepted(Sqls(done), rejects) && Sql(s) in rejects
    ensures Applied(Sqls(done + ([s] + rest)), rejects) == Sqls(done)
    ensures !AllAccepted(Sqls(done + ([s] + rest)), rejects)
  {
    var tail := Sqls([s] + rest);
    SqlsAppend(done, [s] + rest);
    SqlsCons(s, rest);
    AppliedCons(Sql(s), Sqls(rest), rejects);
    AppliedAppend(Sqls(done), tail, rejects);
    AllAcceptedAppend(Sqls(done), tail, rejects);
    assert Sqls(done) + [] == Sqls(done);
  }

  lemma AllDone(stmts: seq<string>, rejects: set<string>)
    requires AllAccepted(stmts, rejects)
    ensures Applied(stmts, rejects) == stmts
  {
    AppliedSpec(stmts, rejects);
  }

  /** The ADD phase and then the DROP phase inside one `try`. */
  lemma TwoPhases(start: seq<string>, adds: seq<string>, drops: seq<string>, rejects: set<string>, ok: bool, log1: seq<string>, log2: seq<string>)
    requires log1 == start + Applied(adds, rejects)
    requires ok <==> AllAccepted(adds, rejects)
    requires log2 == if ok then log1 + Applied(drops, rejects) else log1
    ensures log2 == start + Applied(adds + drops, rejects)
  {
    AppliedAppend(adds, drops, rejects);
    if ok {
      AllDone(adds, rejects);
      Assoc(start, adds, Applied(drops, rejects));
    }
  }

  /** One statement issued inside a loop that stops at the first failure. */
  lemma IssueInOrder(start: seq<string>, done: seq<Statement>, s: Statement, next: seq<Statement>, whole: seq<Statement>,
                     rejects: set<string>, ok: bool, log: seq<string>)
    requires done + ([s] + next) == whole
    requires AllAccepted(Sqls(done), rejects)
    requires ok <==> Sql(s) !in rejects
    requires log == (start + Sqls(done)) + (if ok then [Sql(s)] else [])
    ensures ok ==> (done + [s]) + next == whole && log == start + Sqls(done + [s]) && AllAccepted(Sqls(done + [s]), rejects)
    ensures !ok ==> log == start + Applied(Sqls(whole), rejects) && !AllAccepted(Sqls(whole), rejects)
  {
    if ok {
      AcceptStep(start, done, s, rejects);
      Regroup(done, [s], next, whole);
    } else {
      FailStop(done, s, next, rejects);
      assert log == start + Sqls(done);
    }
  }

  /** A block of statements issued by a helper that stops at its first failure. */
  lemma IssueBlock(start: seq<string>, done: seq<Statement>, block: seq<Statement>, next: seq<Statement>, whole: seq<Statement>,
                   rejects: set<string>, ok: bool, log: seq<string>)
    requires done + (block + next) == whole
    requires AllAccepted(Sqls(done), rejects)
    requires ok <==> AllAccepted(Sqls(block), rejects)
    requires log == (start + Sqls(done)) + Applied(Sqls(block), rejects)
    ensures ok ==> (done + block) + next == whole && log == start + Sqls(done + block) && AllAccepted(Sqls(done + block), rejects)
    ensures !ok ==> log == start + Applied(Sqls(whole), rejects) && !AllAccepted(Sqls(whole), rejects)
  {
    if ok {
      Regroup(done, block, next, whole);
      AllDone(Sqls(block), rejects);
      SqlsAppend(done, block);
      AllAcceptedAppend(Sqls(done), Sqls(block), rejects);
      Assoc(start, Sqls(done), Sqls(block));
    } else {
      var d, b, n := Sqls(done), Sqls(block), Sqls(next);
      SqlsAppend(block, next);
      SqlsAppend(done, block + next);
      assert Sqls(whole) == d + (b + n);
      AppliedAppend(d, b + n, rejects);
      AppliedAppend(b, n, rejects);
      AllAcceptedAppend(d, b + n, rejects);
      AllAcceptedAppend(b, n, rejects);
      Assoc(start, d, Applied(b, rejects));
    }
  }

  /** The loop has issued all of `whole`. */
  lemma AllIssued(start: seq<string>, done: seq<Statement>, whole: seq<Statement>, rejects: set<string>)
    requires done + [] == whole
    requires AllAccepted(Sqls(done), rejects)
    ensures start + Sqls(done) == start + Applied(Sqls(whole), rejects)
    ensures AllAccepted(Sqls(whole), rejects)
  {
    assert done + [] == done;
    AllDone(Sqls(done), rejects);
  }

  lemma DeclaredSuffix(entities: seq<Entity>, live: map<string, seq<LiveColumn>>, i: nat)
    requires IsSnapshot(entities, live) && i <= |entities|
    ensures DeclaredIn(entities[i..], live)
  {
    forall k | 0 <= k < |entities[i..]| ensures entities[i..][k].table.name in live {
      assert entities[i..][k] == entities[i + k];
    }
  }

  // ---------------------------------------------------------------------------
  // The validator's state and its methods

  /** The `HashMap<String, List<Column>>` that `validate` fills with missing columns. */
  class ColumnListMap {
    var entries: map<string, seq<Column>>

    constructor ()
      ensures entries == map[]
    {
      entries := map[];
    }

    function Get(key: string): Option<seq<Column>>
      reads this
    {
      if key in entries then Some(entries[key]) else None
    }

    method Put(key: string, value: seq<Column>)
      modifies this
      ensures entries == old(entries)[key := value]
    {
      entries := entries[key := value];
    }
  }

  class SchemaValidator {
    const tableSchema: string
    const template: Connection

    constructor (template: Connection, tableSchema: string)
      ensures this.template == template && this.tableSchema == tableSchema
    {
      this.template := template;
      this.tableSchema := tableSchema;
    }

    /**
     * Reconciles the database with `entities`: every missing column is added, then every
     * undeclared live column is dropped; the first statement that fails ends the pass.
     */
    method Validate(entities: seq<Entity>, addOrder: seq<string>, dropOrder: seq<string>)
      requires HashOrder(addOrder, entities) && HashOrder(dropOrder, entities)
      modifies template
      ensures template.log == old(template.log)
        + Applied(Sqls(Plan(entities, Snapshot(entities, template.catalog, tableSchema), addOrder, dropOrder)), template.rejects)
    {
      var missing := new ColumnListMap();
      var live := GetEntitiesFromDb(entities);
      var i := 0;
      DeclaredSuffix(entities, live, 0);
      while i < |entities|
        invariant 0 <= i <= |entities|
        invariant DeclaredIn(entities[i..], live)
        invariant MissingMap(missing.entries, entities[i..], live) == MissingMap(map[], entities, live)
        modifies missing
      {
        var tableName := entities[i].table.name;
        var columnsFromDb := live[tableName];
        assert entities[i..][1..] == entities[i + 1..];
        ExemineForMissingColumn(missing, entities[i], columnsFromDb);
        i := i + 1;
        DeclaredSuffix(entities, live, i);
      }
      var m := missing.entries;
      ghost var adds := Sqls(AddsOver(MapOrder(addOrder, m), m));
      ghost var drops := Sqls(DropsOver(entities, MapOrder(dropOrder, live), live));
      var ok := AddMissingColumns(missing, addOrder);
      ghost var log1 := template.log;
      if ok {
        var _ := DeleteColumns(entities, live, dropOrder);
      }
      TwoPhases(old(template.log), adds, drops, template.rejects, ok, log1, template.log);
      SqlsAppend(AddsOver(MapOrder(addOrder, m), m), DropsOver(entities, MapOrder(dropOrder, live), live));
    }

    /** `exemineForMissingColumn`: records every field of `entity` with no live column of its name. */
    method ExemineForMissingColumn(missing: ColumnListMap, entity: Entity, columnsFromDb: seq<LiveColumn>)
      modifies missing
      ensures missing.entries == MissingFor(old(missing.entries), entity.table.name, entity.fields, columnsFromDb)
    {
      var fields := entity.fields;
      var j := 0;
      while j < |fields|
        invariant 0 <= j <= |fields|
        invariant MissingFor(missing.entries, entity.table.name, fields[j..], columnsFromDb)
          == MissingFor(old(missing.entries), entity.table.name, fields, columnsFromDb)
      {
        var columnDef := fields[j];
        var dbColumnDef := FindLive(columnsFromDb, columnDef.name);
        assert fields[j..][1..] == fields[j + 1..];
        if dbColumnDef.None? {
          PutMissingColumn(missing, entity.table, columnDef);
        }
        j := j + 1;
      }
    }

    /** `putMissingColumn`: appends `columnDef` to the table's list, creating the list if absent. */
    method PutMissingColumn(missing: ColumnListMap, table: Table, columnDef: Column)
      modifies missing
      ensures missing.entries == PutMissing(old(missing.entries), table.name, columnDef)
    {
      var listOfMissingColumn := missing.Get(table.name);
      var list := if listOfMissingColumn.None? then [] else listOfMissingColumn.value;
      list := list + [columnDef];
      missing.Put(table.name, list);
    }

    /** `getEntitiesFromDB`: one query per entity, filed under its table name. */
    method GetEntitiesFromDb(entities: seq<Entity>) returns (live: map<string, seq<LiveColumn>>)
      ensures live == Snapshot(entities, template.catalog, tableSchema)
    {
      live := map[];
      var i := 0;
      while i < |entities|
        invariant 0 <= i <= |entities|
        invariant live == Snapshot(entities[..i], template.catalog, tableSchema)
      {
        var tableName := entities[i].table.name;
        var columnsDto := template.QueryColumns(tableSchema, tableName);
        SnapshotSnoc(entities[..i], entities[i], template.catalog, tableSchema);
        assert entities[..i + 1] == entities[..i] + [entities[i]];
        live := live[tableName := columnsDto];
        i := i + 1;
      }
      assert entities[..i] == entities;
    }

    /**
     * `addMissingColumns`: one ADD COLUMN per recorded column, table by table in map order;
     * `ok` is false when a statement failed, which ends the loop.
     */
    method AddMissingColumns(missing: ColumnListMap, order: seq<string>) returns (ok: bool)
      modifies template
      ensures template.log == old(template.log)
        + Applied(Sqls(AddsOver(MapOrder(order, missing.entries), missing.entries)), template.rejects)
      ensures ok <==> AllAccepted(Sqls(AddsOver(MapOrder(order, missing.entries), missing.entries)), template.rejects)
    {
      var m := missing.entries;
      var keys := MapOrder(order, m);
      ghost var rej := template.rejects;
      ghost var whole := AddsOver(keys, m);
      ghost var done: seq<Statement> := [];
      ok := true;
      var i := 0;
      while i < |keys|
        invariant 0 <= i <= |keys|
        invariant missing.entries == m
        invariant KeysIn(keys[i..], m)
        invariant done + AddsOver(keys[i..], m) == whole
        invariant template.log == old(template.log) + Sqls(done)
        invariant AllAccepted(Sqls(done), rej)
      {
        var tableName := keys[i];
        AddsOverStep(keys, m, i);
        ok := AddTableColumns(tableName, m[tableName]);
        IssueBlock(old(template.log), done, AddsFor(tableName, m[tableName]), AddsOver(keys[i + 1..], m), whole, rej, ok, template.log);
        if !ok {
          return;
        }
        done := done + AddsFor(tableName, m[tableName]);
        i := i + 1;
        KeysSuffix(keys, m, i);
      }
      AllIssued(old(template.log), done, whole, rej);
    }

    /** The inner loop of `addMissingColumns`: the columns of one map entry, in list order. */
    method AddTableColumns(tableName: string, columns: seq<Column>) returns (ok: bool)
      modifies template
      ensures template.log == old(template.log) + Applied(Sqls(AddsFor(tableName, columns)), template.rejects)
      ensures ok <==> AllAccepted(Sqls(AddsFor(tableName, columns)), template.rejects)
    {
      ghost var rej := template.rejects;
      ghost var whole := AddsFor(tableName, columns);
      ghost var done: seq<Statement> := [];
      ok := true;
      assert columns[0..] == columns;
      assert whole + [] == whole;
      var j := 0;
      while j < |columns|
        invariant 0 <= j <= |columns|
        invariant done + (AddsFor(tableName, columns[j..]) + []) == whole
        invariant template.log == old(template.log) + Sqls(done)
        invariant AllAccepted(Sqls(done), rej)
      {
        var s := AddColumn(tableName, columns[j]);
        ok := AddColumnToDbTable(tableName, columns[j]);
        AddsForStep(tableName, columns, j, []);
        IssueInOrder(old(template.log), done, s, AddsFor(tableName, columns[j + 1..]) + [], whole, rej, ok, template.log);
        if !ok {
          return;
        }
        done := done + [s];
        j := j + 1;
      }
      AllIssued(old(template.log), done, whole, rej);
    }

    /** `addColumnToDbTable`: the field's create-script line, commas removed, as an ADD COLUMN. */
    method AddColumnToDbTable(tableName: string, missingColumn: Column) returns (ok: bool)
      modifies template
      ensures ok <==> Sql(AddColumn(tableName, missingColumn)) !in template.rejects
      ensures template.log == old(template.log) + (if ok then [Sql(AddColumn(tableName, missingColumn))] else [])
    {
      var builder := new StringBuilder("");
      AppendFieldDdl(missingColumn, builder);
      assert builder.text == ColumnLine(missingColumn);
      var sql := "ALTER TABLE " + tableName + " ADD COLUMN " + RemoveAll(builder.text, ',');
      ok := template.Update(sql);
    }

    /**
     * `deleteColumns`: for each live row, table by table in map order, a DROP when the first
     * entity of that table declares no field of the row's name.
     */
    method DeleteColumns(entities: seq<Entity>, live: map<string, seq<LiveColumn>>, order: seq<string>) returns (ok: bool)
      requires IsSnapshot(entities, live)
      modifies template
      ensures template.log == old(template.log)
        + Applied(Sqls(DropsOver(entities, MapOrder(order, live), live)), template.rejects)
      ensures ok <==> AllAccepted(Sqls(DropsOver(entities, MapOrder(order, live), live)), template.rejects)
    {
      var keys := MapOrder(order, live);
      ghost var rej := template.rejects;
      ghost var whole := DropsOver(entities, keys, live);
      ghost var done: seq<Statement> := [];
      ok := true;
      var i := 0;
      while i < |keys|
        invariant 0 <= i <= |keys|
        invariant KeysIn(keys[i..], live)
        invariant done + DropsOver(entities, keys[i..], live) == whole
        invariant template.log == old(template.log) + Sqls(done)
        invariant AllAccepted(Sqls(done), rej)
      {
        var rows := live[keys[i]];
        RowsFiled(entities, live, keys[i]);
        DropsOverStep(entities, keys, live, i);
        ok := DeleteTableColumns(entities, rows);
        IssueBlock(old(template.log), done, DropsForRows(entities, rows), DropsOver(entities, keys[i + 1..], live), whole, rej, ok, template.log);
        if !ok {
          return;
        }
        done := done + DropsForRows(entities, rows);
        i := i + 1;
        KeysSuffix(keys, live, i);
      }
      AllIssued(old(template.log), done, whole, rej);
    }

    /** The inner loop of `deleteColumns`: the rows of one map entry, in query order. */
    method DeleteTableColumns(entities: seq<Entity>, rows: seq<LiveColumn>) returns (ok: bool)
      requires FiledIn(entities, rows)
      modifies template
      ensures template.log == old(template.log) + Applied(Sqls(DropsForRows(entities, rows)), template.rejects)
      ensures ok <==> AllAccepted(Sqls(DropsForRows(entities, rows)), template.rejects)
    {
      ghost var rej := template.rejects;
      ghost var whole := DropsForRows(entities, rows);
      ghost var done: seq<Statement> := [];
      ok := true;
      assert rows[0..] == rows;
      assert whole + [] == whole;
      var j := 0;
      while j < |rows|
        invariant 0 <= j <= |rows|
        invariant FiledIn(entities, rows[j..])
        invariant done + (DropsForRows(entities, rows[j..]) + []) == whole
        invariant template.log == old(template.log) + Sqls(done)
        invariant AllAccepted(Sqls(done), rej)
      {
        var columnsDto := rows[j];
        var targetEntity := entities[FirstIndex(entities, columnsDto.tableName)];
        DropsForRowsStep(entities, rows, j, []);
        ghost var next := DropsForRows(entities, rows[j + 1..]) + [];
        if IsColumnNotExist(columnsDto, targetEntity) {
          var s := DropColumn(targetEntity.table.name, columnsDto.columnName);
          ok := DeleteColumn(columnsDto, targetEntity);
          IssueInOrder(old(template.log), done, s, next, whole, rej, ok, template.log);
          if !ok {
            return;
          }
          done := done + [s];
        }
        j := j + 1;
        FiledSuffix(entities, rows, j);
      }
      AllIssued(old(template.log), done, whole, rej);
    }

    /** `deleteColumn`: drops the row's column from the target entity's table. */
    method DeleteColumn(columnsDto: LiveColumn, targetEntity: Entity) returns (ok: bool)
      modifies template
      ensures ok <==> Sql(DropColumn(targetEntity.table.name, columnsDto.columnName)) !in template.rejects
      ensures template.log == old(template.log) + (if ok then [Sql(DropColumn(targetEntity.table.name, columnsDto.columnName))] else [])
    {
      var removeColumnSql := "ALTER TABLE " + targetEntity.table.name + " DROP " + columnsDto.columnName;
      ok := template.Update(removeColumnSql);
    }
  }
}
