/**
 * Generation of the `create table if not exists` script from entity descriptors
 * (the `@Table` and `@Column` annotations, here plain values).
 */
module DdlGenerator {
  import opened Wrappers
  import opened Text

  /** A Java `int`. */
  newtype Int32 = x: int | -0x8000_0000 <= x < 0x8000_0000

  /** `@ForeignKey`: the table name of the target entity and the referenced field. */
  datatype ForeignKey = ForeignKey(targetTable: string, fieldName: string)

  /** `@Column` with its first `@Type`; a `length` of -1 means "no length qualifier". */
  datatype Column = Column(
    name: string,
    dataType: string,
    length: Int32,
    notNull: bool,
    unique: bool,
    primaryKey: bool,
    foreignKey: seq<ForeignKey>)

  /** `@Table`. */
  datatype Table = Table(name: string)

  /** An entity class: its `@Table` and its declared fields, in declaration order. */
  datatype Entity = Entity(table: Table, fields: seq<Column>)

  // ---------------------------------------------------------------------------
  // Text of one column and of one table

  function TypeToString(c: Column): string
  {
    c.dataType + (if c.length != -1 then "(" + IntToString(c.length as int) + ")" else "")
  }

  /** As Java parses `notNull ? "  not null" : "" + (unique ? " UNIQUE" : "")`. */
  function AddOtherConstraints(c: Column): string
  {
    if c.notNull then "  not null" else "" + (if c.unique then " UNIQUE" else "")
  }

  /** The line a field contributes to its table; also what `appendFieldDDL` emits. */
  function ColumnLine(c: Column): string
  {
    "'" + c.name + "'   " + TypeToString(c) + AddOtherConstraints(c) + ",\n"
  }

  function PrimaryKeyClause(name: string): string
  {
    "PRIMARY KEY (" + name + ")"
  }

  function ForeignKeyClause(name: string, fk: ForeignKey): string
  {
    "FOREIGN KEY (" + name + ")" + " REFERENCES " + fk.targetTable + "(" + fk.fieldName + ")"
  }

  /** The key constraints one field adds to the list. */
  function KeyConstraints(c: Column): seq<string>
  {
    (if c.primaryKey then [PrimaryKeyClause(c.name)] else [])
    + (if |c.foreignKey| == 1 then [ForeignKeyClause(c.name, c.foreignKey[0])] else [])
  }

  function Constraints(fields: seq<Column>): seq<string>
  {
    if |fields| == 0 then [] else KeyConstraints(fields[0]) + Constraints(fields[1..])
  }

  function ColumnLines(fields: seq<Column>): string
  {
    if |fields| == 0 then "" else ColumnLine(fields[0]) + ColumnLines(fields[1..])
  }

  function ConstraintLines(cs: seq<string>): string
  {
    if |cs| == 0 then "" else cs[0] + ",\n" + ConstraintLines(cs[1..])
  }

  function Header(tableName: string): string
  {
    "create table if not exists " + tableName + " (\n"
  }

  /** The table text before its last comma is deleted. */
  function TableBody(e: Entity): string
  {
    Header(e.table.name) + ColumnLines(e.fields) + ConstraintLines(Constraints(e.fields))
  }

  /**
   * The end of `generateTableDDL` on a table text: the last comma is deleted (the
   * `replace` throws when there is none), then `);` and a blank line follow.
   */
  function CloseBlock(body: string): Option<string>
  {
    var i := LastOccurrence(body, ',');
    if i < 0 then None else Some(body[..i] + body[i + 1..] + ");\n" + "\n")
  }

  function TableDdl(e: Entity): Option<string>
  {
    CloseBlock(TableBody(e))
  }

  function Prepend(prefix: string, o: Option<string>): Option<string>
  {
    match o
    case None => None
    case Some(s) => Some(prefix + s)
  }

  /** The whole script: the table blocks in entity order; None as soon as one block throws. */
  function Script(entities: seq<Entity>): Option<string>
  {
    if |entities| == 0 then Some("")
    else match TableDdl(entities[0])
      case None => None
      case Some(block) => Prepend(block, Script(entities[1..]))
  }

  // ---------------------------------------------------------------------------
  // The generator, over builders updated in place

  /** `appendFieldDDL` (assumed to emit the column line of `generateTableDDL`). */
  method AppendFieldDdl(c: Column, builder: StringBuilder)
    modifies builder
    ensures builder.text == old(builder.text) + ColumnLine(c)
  {
    builder.Append("'" + c.name + "'   " + TypeToString(c) + AddOtherConstraints(c) + ",\n");
  }

  method GenerateKeyConstraint(c: Column, constraints: StringList)
    modifies constraints
    ensures constraints.items == old(constraints.items) + KeyConstraints(c)
  {
    if c.primaryKey {
      constraints.Add("PRIMARY KEY (" + c.name + ")");
    }
    if |c.foreignKey| == 1 {
      constraints.Add("FOREIGN KEY (" + c.name + ")" + " REFERENCES " + c.foreignKey[0].targetTable
        + "(" + c.foreignKey[0].fieldName + ")");
    }
  }

  lemma ColumnLinesCons(fields: seq<Column>, i: nat)
    requires i < |fields|
    ensures ColumnLines(fields[i..]) == ColumnLine(fields[i]) + ColumnLines(fields[i + 1..])
  {
    assert fields[i..][1..] == fields[i + 1..];
  }

  lemma ConstraintsCons(fields: seq<Column>, i: nat)
    requires i < |fields|
    ensures Constraints(fields[i..]) == KeyConstraints(fields[i]) + Constraints(fields[i + 1..])
  {
    assert fields[i..][1..] == fields[i + 1..];
  }

  lemma ConstraintLinesCons(cs: seq<string>, i: nat)
    requires i < |cs|
    ensures ConstraintLines(cs[i..]) == (cs[i] + ",\n") + ConstraintLines(cs[i + 1..])
  {
    assert cs[i..][1..] == cs[i + 1..];
  }

  method AppendKeyConstraints(constraints: StringList, tableDdl: StringBuilder)
    modifies tableDdl
    ensures tableDdl.text == old(tableDdl.text) + ConstraintLines(constraints.items)
  {
    var cs := constraints.items;
    for i := 0 to |cs|
      invariant tableDdl.text + ConstraintLines(cs[i..]) == old(tableDdl.text) + ConstraintLines(cs)
    {
      ConstraintLinesCons(cs, i);
      Regroup(tableDdl.text, cs[i] + ",\n", ConstraintLines(cs[i + 1..]), old(tableDdl.text) + ConstraintLines(cs));
      tableDdl.Append(cs[i] + ",\n");
    }
    assert cs[|cs|..] == [];
    assert tableDdl.text + "" == tableDdl.text;
  }

  /** One iteration of the field loop of `generateTableDDL`. */
  method AddField(c: Column, tableDdl: StringBuilder, constraints: StringList)
    modifies tableDdl, constraints
    ensures tableDdl.text == old(tableDdl.text) + ColumnLine(c)
    ensures constraints.items == old(constraints.items) + KeyConstraints(c)
  {
    AppendFieldDdl(c, tableDdl);
    GenerateKeyConstraint(c, constraints);
  }

  /** The first part of `generateTableDDL`: the header, one line per field, then the key constraints. */
  method BuildTableBody(e: Entity) returns (tableDdl: StringBuilder)
    ensures fresh(tableDdl)
    ensures tableDdl.text == TableBody(e)
  {
    tableDdl := new StringBuilder(Header(e.table.name));
    var constraints := new StringList();
    var fields := e.fields;
    for i := 0 to |fields|
      modifies tableDdl, constraints
      invariant tableDdl.text + ColumnLines(fields[i..]) == Header(e.table.name) + ColumnLines(fields)
      invariant constraints.items + Constraints(fields[i..]) == Constraints(fields)
    {
      ColumnLinesCons(fields, i);
      ConstraintsCons(fields, i);
      Regroup(tableDdl.text, ColumnLine(fields[i]), ColumnLines(fields[i + 1..]), Header(e.table.name) + ColumnLines(fields));
      Regroup(constraints.items, KeyConstraints(fields[i]), Constraints(fields[i + 1..]), Constraints(fields));
      AddField(fields[i], tableDdl, constraints);
    }
    assert fields[|fields|..] == [];
    assert tableDdl.text + "" == tableDdl.text;
    assert constraints.items + [] == constraints.items;
    AppendKeyConstraints(constraints, tableDdl);
  }

  /**
   * `generateTableDDL`: appends the block of `e` to `fullDdl`, or throws (ok is false,
   * `fullDdl` untouched) when the table text has no comma.
   */
  method GenerateTableDdl(e: Entity, fullDdl: StringBuilder) returns (ok: bool)
    modifies fullDdl
    ensures ok <==> TableDdl(e).Some?
    ensures ok ==> fullDdl.text == old(fullDdl.text) + TableDdl(e).value
    ensures !ok ==> fullDdl.text == old(fullDdl.text)
  {
    var tableDdl := BuildTableBody(e);
    ghost var body := tableDdl.text;
    var comma := tableDdl.LastIndexOf(',');
    CloseBlockAt(body, comma);
    ok := tableDdl.Replace(comma, comma + 1, "");
    if !ok {
      return;
    }
    assert tableDdl.text == body[..comma] + body[comma + 1..];
    tableDdl.Append(");\n");
    fullDdl.Append(tableDdl.text + "\n");
  }

  /** At the index `lastIndexOf(",")` returns, the block is defined exactly when a comma was found. */
  lemma CloseBlockAt(body: string, i: int)
    requires i == LastOccurrence(body, ',')
    ensures CloseBlock(body).Some? <==> 0 <= i
    ensures 0 <= i ==>
      (i + 1 <= |body| && Min(i + 1, |body|) == i + 1
       && CloseBlock(body).value == body[..i] + body[i + 1..] + ");\n" + "\n")
  {
  }

  lemma ScriptCons(entities: seq<Entity>, i: nat)
    requires i < |entities|
    ensures Script(entities[i..]) == match TableDdl(entities[i])
      case None => None
      case Some(block) => Prepend(block, Script(entities[i + 1..]))
  {
    assert entities[i..][1..] == entities[i + 1..];
  }

  lemma PrependTwice(a: string, b: string, o: Option<string>)
    ensures Prepend(a, Prepend(b, o)) == Prepend(a + b, o)
  {
    if o.Some? {
      assert a + (b + o.value) == (a + b) + o.value;
    }
  }

  /** `process`, up to the file write: the script text, or None when a table threw. */
  method Process(entities: seq<Entity>) returns (r: Option<string>)
    ensures r == Script(entities)
  {
    var fullDdl := new StringBuilder("");
    assert entities[0..] == entities;
    assert Script(entities).Some? ==> "" + Script(entities).value == Script(entities).value;
    for i := 0 to |entities|
      invariant Script(entities) == Prepend(fullDdl.text, Script(entities[i..]))
    {
      ScriptCons(entities, i);
      ghost var done := fullDdl.text;
      var ok := GenerateTableDdl(entities[i], fullDdl);
      if !ok {
        return None;
      }
      PrependTwice(done, TableDdl(entities[i]).value, Script(entities[i + 1..]));
    }
    assert entities[|entities|..] == [];
    assert fullDdl.text + "" == fullDdl.text;
    r := Some(fullDdl.text);
  }

  // ---------------------------------------------------------------------------
  // Properties of the generated text

  /** The type text is the data type alone exactly when the length is -1; otherwise the length follows in parentheses. */
  lemma TypeToStringSpec(c: Column)
    ensures c.dataType <= TypeToString(c)
    ensures c.length == -1 <==> TypeToString(c) == c.dataType
    ensures c.length != -1 ==>
      var r, n := TypeToString(c), |c.dataType|;
      && |r| >= n + 2 && r[n] == '(' && r[|r| - 1] == ')'
      && ParseInt(r[n + 1..|r| - 1]) == c.length as int
  {
    if c.length != -1 {
      var digits := IntToString(c.length as int);
      var r := TypeToString(c);
      assert r == c.dataType + ("(" + digits + ")");
      assert r[|c.dataType| + 1..|r| - 1] == digits;
      IntToStringRoundTrip(c.length as int);
    }
  }

  /** `not null` wins over `UNIQUE`: Java's precedence makes UNIQUE part of the else branch only. */
  lemma AddOtherConstraintsSpec(c: Column)
    ensures AddOtherConstraints(c) == "  not null" <==> c.notNull
    ensures AddOtherConstraints(c) == " UNIQUE" <==> !c.notNull && c.unique
    ensures AddOtherConstraints(c) == "" <==> !c.notNull && !c.unique
  {
  }

  lemma {:induction false} ColumnLinesAppend(a: seq<Column>, b: seq<Column>)
    ensures ColumnLines(a + b) == ColumnLines(a) + ColumnLines(b)
  {
    if |a| == 0 {
      assert a + b == b;
    } else {
      assert (a + b)[1..] == a[1..] + b;
      ColumnLinesAppend(a[1..], b);
      Assoc(ColumnLine(a[0]), ColumnLines(a[1..]), ColumnLines(b));
    }
  }

  /** Field k's line sits between the lines of the fields before it and those after it. */
  lemma ColumnLinesAt(fields: seq<Column>, k: nat)
    requires k < |fields|
    ensures ColumnLines(fields) == ColumnLines(fields[..k]) + ColumnLine(fields[k]) + ColumnLines(fields[k + 1..])
  {
    assert fields == fields[..k] + fields[k..];
    ColumnLinesAppend(fields[..k], fields[k..]);
    ColumnLinesCons(fields, k);
    Assoc(ColumnLines(fields[..k]), ColumnLine(fields[k]), ColumnLines(fields[k + 1..]));
  }

  lemma {:induction false} ConstraintsAppend(a: seq<Column>, b: seq<Column>)
    ensures Constraints(a + b) == Constraints(a) + Constraints(b)
  {
    if |a| == 0 {
      assert a + b == b;
    } else {
      assert (a + b)[1..] == a[1..] + b;
      ConstraintsAppend(a[1..], b);
      Assoc(KeyConstraints(a[0]), Constraints(a[1..]), Constraints(b));
    }
  }

  /** Constraints come in field order: field k contributes its own clauses, PRIMARY KEY before FOREIGN KEY. */
  lemma ConstraintsAt(fields: seq<Column>, k: nat)
    requires k < |fields|
    ensures Constraints(fields) == Constraints(fields[..k]) + KeyConstraints(fields[k]) + Constraints(fields[k + 1..])
  {
    assert fields == fields[..k] + fields[k..];
    ConstraintsAppend(fields[..k], fields[k..]);
    ConstraintsCons(fields, k);
    Assoc(Constraints(fields[..k]), KeyConstraints(fields[k]), Constraints(fields[k + 1..]));
  }

  /** The clauses field `c` adds: its PRIMARY KEY when flagged, its FOREIGN KEY when it has exactly one. */
  predicate Contributes(c: Column, x: string)
  {
    || (c.primaryKey && x == PrimaryKeyClause(c.name))
    || (|c.foreignKey| == 1 && x == ForeignKeyClause(c.name, c.foreignKey[0]))
  }

  lemma KeyConstraintsMember(c: Column, x: string)
    ensures x in KeyConstraints(c) <==> Contributes(c, x)
  {
  }

  lemma {:induction false} ConstraintsMember(fields: seq<Column>, x: string)
    ensures x in Constraints(fields) <==> exists i :: 0 <= i < |fields| && Contributes(fields[i], x)
  {
    if |fields| > 0 {
      ConstraintsMember(fields[1..], x);
      KeyConstraintsMember(fields[0], x);
      if exists i :: 0 <= i < |fields[1..]| && Contributes(fields[1..][i], x) {
        var i :| 0 <= i < |fields[1..]| && Contributes(fields[1..][i], x);
        assert fields[i + 1] == fields[1..][i];
      }
      if exists i :: 0 <= i < |fields| && Contributes(fields[i], x) {
        var i :| 0 <= i < |fields| && Contributes(fields[i], x);
        if i > 0 {
          assert fields[1..][i - 1] == fields[i];
        }
      }
    }
  }

  predicate IsPrimaryKeyClause(x: string)
  {
    |x| >= 13 && x[..13] == "PRIMARY KEY ("
  }

  function PrimaryKeyClauseCount(cs: seq<string>): nat
  {
    if |cs| == 0 then 0 else (if IsPrimaryKeyClause(cs[0]) then 1 else 0) + PrimaryKeyClauseCount(cs[1..])
  }

  function PrimaryKeyFieldCount(fields: seq<Column>): nat
  {
    if |fields| == 0 then 0 else (if fields[0].primaryKey then 1 else 0) + PrimaryKeyFieldCount(fields[1..])
  }

  function ForeignKeyFieldCount(fields: seq<Column>): nat
  {
    if |fields| == 0 then 0 else (if |fields[0].foreignKey| == 1 then 1 else 0) + ForeignKeyFieldCount(fields[1..])
  }

  lemma {:induction false} PrimaryKeyClauseCountAppend(a: seq<string>, b: seq<string>)
    ensures PrimaryKeyClauseCount(a + b) == PrimaryKeyClauseCount(a) + PrimaryKeyClauseCount(b)
  {
    if |a| == 0 {
      assert a + b == b;
    } else {
      assert (a + b)[1..] == a[1..] + b;
      PrimaryKeyClauseCountAppend(a[1..], b);
    }
  }

  lemma PrimaryKeyClauseIs(name: string)
    ensures IsPrimaryKeyClause(PrimaryKeyClause(name))
  {
    assert PrimaryKeyClause(name)[..13] == "PRIMARY KEY (";
  }

  lemma ForeignKeyClauseIsNot(name: string, fk: ForeignKey)
    ensures !IsPrimaryKeyClause(ForeignKeyClause(name, fk))
  {
    assert ForeignKeyClause(name, fk)[0] == 'F';
  }

  lemma KeyConstraintsCount(c: Column)
    ensures PrimaryKeyClauseCount(KeyConstraints(c)) == if c.primaryKey then 1 else 0
    ensures |KeyConstraints(c)| == (if c.primaryKey then 1 else 0) + (if |c.foreignKey| == 1 then 1 else 0)
  {
    var pk := if c.primaryKey then [PrimaryKeyClause(c.name)] else [];
    var fk := if |c.foreignKey| == 1 then [ForeignKeyClause(c.name, c.foreignKey[0])] else [];
    PrimaryKeyClauseCountAppend(pk, fk);
    if c.primaryKey {
      PrimaryKeyClauseIs(c.name);
    }
    if |c.foreignKey| == 1 {
      ForeignKeyClauseIsNot(c.name, c.foreignKey[0]);
    }
  }

  /**
   * One PRIMARY KEY clause per flagged field (never one composite clause), and one
   * FOREIGN KEY clause per field whose foreign-key array has exactly one element.
   */
  lemma {:induction false} ConstraintCounts(fields: seq<Column>)
    ensures PrimaryKeyClauseCount(Constraints(fields)) == PrimaryKeyFieldCount(fields)
    ensures |Constraints(fields)| == PrimaryKeyFieldCount(fields) + ForeignKeyFieldCount(fields)
  {
    if |fields| > 0 {
      ConstraintCounts(fields[1..]);
      KeyConstraintsCount(fields[0]);
      PrimaryKeyClauseCountAppend(KeyConstraints(fields[0]), Constraints(fields[1..]));
    }
  }

  lemma LastOccurrenceFound(s: string, c: char)
    ensures LastOccurrence(s, c) >= 0 <==> c in s
  {
    LastOccurrenceSpec(s, c);
    if c in s {
      var k :| 0 <= k < |s| && s[k] == c;
      assert LastOccurrence(s, c) >= k;
    }
  }

  predicate EndsWithSeparator(s: string)
  {
    |s| >= 2 && s[|s| - 2..] == ",\n"
  }

  lemma EndsWithSeparatorAppend(a: string, b: string)
    requires EndsWithSeparator(b)
    ensures EndsWithSeparator(a + b)
  {
    assert (a + b)[|a + b| - 2..] == b[|b| - 2..];
  }

  lemma ColumnLinesEnd(fields: seq<Column>)
    requires |fields| > 0
    ensures EndsWithSeparator(ColumnLines(fields))
  {
    var k := |fields| - 1;
    ColumnLinesAt(fields, k);
    assert fields[k + 1..] == [];
    var line := ColumnLine(fields[k]);
    assert EndsWithSeparator(line) by {
      assert line == ("'" + fields[k].name + "'   " + TypeToString(fields[k]) + AddOtherConstraints(fields[k])) + ",\n";
    }
    EndsWithSeparatorAppend(ColumnLines(fields[..k]), line);
    assert ColumnLines(fields) == ColumnLines(fields[..k]) + line;
  }

  lemma {:induction false} ConstraintLinesEnd(cs: seq<string>)
    requires |cs| > 0
    ensures EndsWithSeparator(ConstraintLines(cs))
  {
    if |cs| == 1 {
      assert ConstraintLines(cs) == cs[0] + ",\n" + "";
      EndsWithSeparatorAppend(cs[0], ",\n");
    } else {
      ConstraintLinesEnd(cs[1..]);
      EndsWithSeparatorAppend(cs[0] + ",\n", ConstraintLines(cs[1..]));
    }
  }

  /** `body` starts with `h` and ends with a separator that comes after it. */
  predicate Framed(body: string, h: string)
  {
    EndsWithSeparator(body) && |body| >= |h| + 2 && body[..|h|] == h
  }

  /** With at least one field the table text starts with its header and ends with a separator. */
  lemma TableBodyEnds(e: Entity)
    requires |e.fields| > 0
    ensures Framed(TableBody(e), Header(e.table.name))
  {
    var h := Header(e.table.name);
    var lines := ColumnLines(e.fields);
    var cs := ConstraintLines(Constraints(e.fields));
    ColumnLinesEnd(e.fields);
    EndsWithSeparatorAppend(h, lines);
    if |Constraints(e.fields)| > 0 {
      ConstraintLinesEnd(Constraints(e.fields));
      EndsWithSeparatorAppend(h + lines, cs);
    } else {
      assert TableBody(e) == h + lines;
    }
    assert TableBody(e) == h + (lines + cs);
  }

  /** `replace` throws exactly when the table has no field and its name holds no comma. */
  lemma TableDdlDefined(e: Entity)
    ensures TableDdl(e).Some? <==> |e.fields| > 0 || ',' in e.table.name
  {
    var body := TableBody(e);
    LastOccurrenceFound(body, ',');
    if |e.fields| > 0 {
      TableBodyEnds(e);
      assert body[|body| - 2] == ',';
    } else {
      assert body == "create table if not exists " + e.table.name + " (\n";
      assert ',' !in "create table if not exists ";
      assert ',' !in " (\n";
    }
  }

  lemma LastSeparatorIndex(body: string)
    requires EndsWithSeparator(body)
    ensures LastOccurrence(body, ',') == |body| - 2
  {
    var n := |body|;
    assert body[n - 2] == body[n - 2..][0] == ',';
    assert body[n - 1] == body[n - 2..][1] == '\n';
  }

  lemma DeleteSeparatorComma(body: string, i: int)
    requires EndsWithSeparator(body) && i == |body| - 2
    ensures body[..i] + body[i + 1..] == body[..|body| - 2] + "\n"
  {
    assert body[i + 1..] == body[|body| - 2..][1..];
  }

  lemma PrefixKept(h: string, kept: string, tail: string)
    requires |kept| >= |h| && kept[..|h|] == h
    ensures h <= kept + tail
  {
    assert (kept + tail)[..|h|] == kept[..|h|];
  }

  lemma CloseBlockShape(body: string, h: string)
    requires Framed(body, h)
    ensures CloseBlock(body) == Some(body[..|body| - 2] + "\n" + ");\n" + "\n")
    ensures h <= CloseBlock(body).value
  {
    LastSeparatorIndex(body);
    var i := |body| - 2;
    DeleteSeparatorComma(body, i);
    var kept := body[..i] + body[i + 1..];
    assert kept[..|h|] == body[..|h|];
    PrefixKept(h, kept, ");\n" + "\n");
    assert kept + ");\n" + "\n" == kept + (");\n" + "\n");
  }

  /**
   * With at least one field, the block is the header, the field lines and the constraint
   * lines with only the final separator comma deleted, then `);` and a blank line.
   */
  lemma TableDdlShape(e: Entity)
    requires |e.fields| > 0
    ensures var body := TableBody(e);
      && EndsWithSeparator(body)
      && TableDdl(e) == Some(body[..|body| - 2] + "\n" + ");\n" + "\n")
    ensures Header(e.table.name) <= TableDdl(e).value
  {
    TableBodyEnds(e);
    CloseBlockShape(TableBody(e), Header(e.table.name));
  }

  function Concat(blocks: seq<string>): string
  {
    if |blocks| == 0 then "" else blocks[0] + Concat(blocks[1..])
  }

  /** When every table has a block, the script is exactly those blocks, one per entity, in entity order. */
  lemma {:induction false} ScriptBlocks(entities: seq<Entity>, blocks: seq<string>)
    requires |blocks| == |entities|
    requires forall k :: 0 <= k < |entities| ==> TableDdl(entities[k]) == Some(blocks[k])
    ensures Script(entities) == Some(Concat(blocks))
  {
    if |entities| > 0 {
      ScriptBlocks(entities[1..], blocks[1..]);
    }
  }

  /** One table that throws stops the whole script. */
  lemma {:induction false} ScriptFails(entities: seq<Entity>, k: nat)
    requires k < |entities| && TableDdl(entities[k]).None?
    ensures Script(entities).None?
  {
    if k > 0 {
      ScriptFails(entities[1..], k - 1);
    }
  }

  lemma CloseBlockEnds(body: string)
    requires CloseBlock(body).Some?
    ensures var b := CloseBlock(body).value; |b| >= 4 && b[|b| - 4..] == ");\n\n"
  {
    var i := LastOccurrence(body, ',');
    var kept := body[..i] + body[i + 1..];
    assert CloseBlock(body).value == kept + ");\n\n";
  }

  lemma SuffixOfAppend(a: string, b: string, k: nat)
    requires |b| >= k
    ensures (a + b)[|a + b| - k..] == b[|b| - k..]
  {
  }

  /** A non-empty script ends with the `);` of its last table and a blank line. */
  lemma {:induction false} ScriptEnding(entities: seq<Entity>)
    requires |entities| > 0 && Script(entities).Some?
    ensures var s := Script(entities).value; |s| >= 4 && s[|s| - 4..] == ");\n\n"
  {
    CloseBlockEnds(TableBody(entities[0]));
    var block := TableDdl(entities[0]).value;
    if |entities| == 1 {
      assert Script(entities).value == block + "";
    } else {
      ScriptEnding(entities[1..]);
      var rest := Script(entities[1..]).value;
      assert Script(entities).value == block + rest;
      SuffixOfAppend(block, rest, 4);
    }
  }
}
