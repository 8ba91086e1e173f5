/** The session (sql_context.c): the options the exporter runs with, the
    registry of tables in the order they were added, the lock on the table
    whose row is being filled, and the cursor on the column that the next
    value goes to.

    `outDir` and `floatFmt` are read by sql_table_open from the session but
    are not members of `struct sql_context` in sql.h; the model gives the
    session both fields. */
module SqlContext {
  import opened Sql
  import opened SqlColumn
  import opened SqlTable

  /** The index of the first table of `ts` named `name`, or |ts| when no
      table has that name: where the search loops of add_table and
      lock_table stop. */
  ghost function FirstNamed(ts: seq<Table>, name: string): (k: nat)
    reads ts`name
    ensures k <= |ts|
  {
    if |ts| == 0 || ts[0].name == Some(name) then 0 else 1 + FirstNamed(ts[1..], name)
  }

  /** FirstNamed stops at the first table with the name and passes none
      before it. */
  lemma {:induction false} FirstNamedIsFirst(ts: seq<Table>, name: string)
    ensures forall i :: 0 <= i < FirstNamed(ts, name) ==> ts[i].name != Some(name)
    ensures FirstNamed(ts, name) < |ts| ==> ts[FirstNamed(ts, name)].name == Some(name)
  {
    if |ts| > 0 && ts[0].name != Some(name) {
      FirstNamedIsFirst(ts[1..], name);
      forall i | 0 < i < FirstNamed(ts, name) ensures ts[i].name != Some(name) {
        assert ts[i] == ts[1..][i - 1];
      }
    }
  }

  /** A search that passed `j` tables without finding the name and stops
      at index `j` (a match, or the end) has found FirstNamed. */
  lemma {:induction false} FirstNamedAt(ts: seq<Table>, name: string, j: nat)
    requires j <= |ts|
    requires forall i :: 0 <= i < j ==> ts[i].name != Some(name)
    requires j < |ts| ==> ts[j].name == Some(name)
    ensures FirstNamed(ts, name) == j
  {
    if j > 0 {
      FirstNamedAt(ts[1..], name, j - 1);
    }
  }

  /** Every table has a name and no two tables have the same one. */
  ghost predicate UniqueNames(ts: seq<Table>)
    reads ts`name
  {
    && (forall i :: 0 <= i < |ts| ==> ts[i].name.Some?)
    && (forall i, j :: 0 <= i < j < |ts| ==> ts[i].name != ts[j].name)
  }

  /** With unique names, the search of lock_table finds the one table that
      carries the name, whichever table that is. */
  lemma FirstNamedUnique(ts: seq<Table>, i: nat)
    requires UniqueNames(ts) && i < |ts|
    ensures FirstNamed(ts, ts[i].name.value) == i
  {
    FirstNamedAt(ts, ts[i].name.value, i);
  }

  /** A table appended under a name that was not registered is what the
      search finds under that name afterwards; the other names are found
      where they were. */
  lemma {:induction false} FirstNamedAppend(ts: seq<Table>, q: Table, name: string)
    requires q.name.Some?
    ensures FirstNamed(ts, name) < |ts| ==> FirstNamed(ts + [q], name) == FirstNamed(ts, name)
    ensures FirstNamed(ts, name) == |ts| ==>
      FirstNamed(ts + [q], name) == (if q.name == Some(name) then |ts| else |ts| + 1)
  {
    var k := FirstNamed(ts, name);
    FirstNamedIsFirst(ts, name);
    var s := ts + [q];
    forall i | 0 <= i < k ensures s[i].name != Some(name) {
      assert s[i] == ts[i];
    }
    if k < |ts| {
      assert s[k] == ts[k];
      FirstNamedAt(s, name, k);
    } else if q.name == Some(name) {
      FirstNamedAt(s, name, k);
    } else {
      FirstNamedAt(s, name, k + 1);
    }
  }

  /** `owner` maps every column of every table of `ts` to that table, so
      no column belongs to two of them. */
  ghost predicate Owned(ts: seq<Table>, owner: map<Column, Table>)
    reads ts`columns
  {
    forall k, m :: 0 <= k < |ts| && 0 <= m < |ts[k].columns| ==>
      ts[k].columns[m] in owner && owner[ts[k].columns[m]] == ts[k]
  }

  /** The text a table's file holds once sql_context_write_current_row has
      made sure it is open: what it already holds, or, when it was still
      closed and is opened with the settings `s`, the start of the file
      followed by the header and type lines that open writes. */
  ghost function OpenedText(out: Option<string>, s: Settings, env: FileEnv, cs: seq<Column>): (text: string)
    reads cs
    requires out.None? && (s.addHeader || s.addTypes) && AllowHeader(env, s.dontDrop) ==> Named(cs)
  {
    if out.Some? then out.value else Start(env, s.dontDrop) + Prologue(s, AllowHeader(env, s.dontDrop), cs)
  }

  class Context {
    var compress: bool
    var dontDrop: bool
    var addHeader: bool
    var addTypes: bool
    var autoClose: bool
    var currentTable: Table?
    var firstTable: Table?
    var lastTable: Table?
    var currentColumn: Column?
    var sourceFile: Option<string>
    /** The directory for the output files; None writes them beside the
        working directory. */
    var outDir: Option<string>
    /** The printf format for floating-point cells. */
    var floatFmt: string

    /** The table chain, first to last. */
    ghost var tables: seq<Table>

    /** The registry is one whole chain of uniquely named tables whose ends
        are `first_table` and `last_table`. */
    ghost predicate Registry()
      reads this`tables, this`firstTable, this`lastTable, tables`prev, tables`next, tables`name
    {
      && TableChainValid(tables)
      && firstTable == (if |tables| == 0 then null else tables[0])
      && lastTable == (if |tables| == 0 then null else tables[|tables| - 1])
      && UniqueNames(tables)
    }

    /** A column is current only while a registered table is locked, and
        it is then one of that table's columns. */
    ghost predicate Cursor()
      reads this`tables, this`currentTable, this`currentColumn, tables`columns
    {
      && (currentTable == null ==> currentColumn == null)
      && (currentTable != null ==>
            currentTable in tables && (currentColumn != null ==> currentColumn in currentTable.columns))
    }

    ghost predicate Valid()
      reads this, tables`prev, tables`next, tables`name, tables`columns
    {
      Registry() && Cursor()
    }

    /** The options handed to sql_table_open. */
    function Options(): (s: Settings)
      reads this`compress, this`dontDrop, this`addHeader, this`addTypes, this`outDir, this`sourceFile, this`floatFmt
    {
      Settings(compress, dontDrop, addHeader, addTypes, outDir, sourceFile, floatFmt)
    }

    /** sql_context_init: every option off except auto_close, no tables,
        no lock, no cursor, no source file. */
    constructor ()
      ensures !compress && !dontDrop && !addHeader && !addTypes && autoClose
      ensures currentTable == null && firstTable == null && lastTable == null && currentColumn == null
      ensures sourceFile == None && outDir == None && floatFmt == ""
      ensures tables == [] && Valid()
    {
      compress := false;
      dontDrop := false;
      addHeader := false;
      addTypes := false;
      autoClose := true;
      currentTable := null;
      firstTable := null;
      lastTable := null;
      currentColumn := null;
      sourceFile := None;
      outDir := None;
      floatFmt := "";
      tables := [];
    }

    /** sql_context_add_table: a table whose name is registered already is
        fatal and changes nothing; otherwise the table is linked in after
        the last one, and the others keep their order. */
    method AddTable(q: Table) returns (outcome: Outcome)
      requires Valid() && q.name.Some?
      requires FirstNamed(tables, q.name.value) == |tables| ==> q.prev == null && q.next == null
      modifies this`firstTable, this`lastTable, this`tables, tables`next, q`prev
      ensures Valid()
      ensures outcome == if FirstNamed(old(tables), q.name.value) < |old(tables)|
        then Died(DuplicateTable(q.name.value)) else Done
      ensures outcome.Died? ==>
        && tables == old(tables) && firstTable == old(firstTable) && lastTable == old(lastTable)
        && q.prev == old(q.prev)
        && forall k :: 0 <= k < |tables| ==> tables[k].next == old(tables[k].next)
      ensures outcome.Done? ==> tables == old(tables) + [q]
    {
      var dup := FindTable(firstTable, tables, q.name.value);
      if dup != null {
        return Died(DuplicateTable(q.name.value));
      }
      FirstNamedIsFirst(tables, q.name.value);
      Append(q);
      outcome := Done;
    }

    /** The linking part of sql_context_add_table, once the name is known
        to be new. */
    method Append(q: Table)
      requires Valid() && q.name.Some? && q !in tables && q.prev == null && q.next == null
      requires FirstNamed(tables, q.name.value) == |tables|
      modifies this`firstTable, this`lastTable, this`tables, tables`next, q`prev
      ensures Valid()
      ensures tables == old(tables) + [q]
    {
      FirstNamedIsFirst(tables, q.name.value);
      if firstTable == null {
        firstTable := q;
      }
      if lastTable != null {
        lastTable.next := q;
        q.prev := lastTable;
      }
      lastTable := q;
      tables := tables + [q];
      forall m | 0 <= m < |tables| - 2 ensures tables[m].next == tables[m + 1] {
        assert tables[m] != old(lastTable);
      }
    }

    /** sql_context_lock_table: fatal while a table is locked and when no
        table has the name; otherwise the first table with the name is
        locked and the cursor is put on its first column. */
    method LockTable(name: string) returns (outcome: Outcome)
      requires Valid()
      requires forall k {:trigger tables[k].Valid()} :: 0 <= k < |tables| ==> tables[k].Valid()
      modifies this`currentTable, this`currentColumn
      ensures Valid()
      ensures old(currentTable) != null ==>
        && outcome == Died(AlreadyLocked(old(currentTable.name)))
        && currentTable == old(currentTable) && currentColumn == old(currentColumn)
      ensures old(currentTable) == null && FirstNamed(tables, name) < |tables| ==>
        && outcome == Done
        && currentTable == tables[FirstNamed(tables, name)]
        && currentColumn == currentTable.firstColumn
      ensures old(currentTable) == null && FirstNamed(tables, name) == |tables| ==>
        outcome == Died(NoSuchTable(name)) && currentTable == null && currentColumn == null
    {
      if currentTable != null {
        return Died(AlreadyLocked(currentTable.name));
      }
      var it := FindTable(firstTable, tables, name);
      if it == null {
        return Died(NoSuchTable(name));
      }
      assert tables[FirstNamed(tables, name)].Valid();
      currentTable := it;
      currentColumn := it.firstColumn;
      outcome := Done;
    }

    /** sql_context_unlock_table: no table is locked and no column is
        current afterwards, whatever held before, so unlocking twice is
        unlocking once. */
    method UnlockTable()
      modifies this`currentTable, this`currentColumn
      ensures currentTable == null && currentColumn == null
      ensures old(Valid()) ==> Valid()
    {
      currentTable := null;
      currentColumn := null;
    }

    /** sql_context_get_current_column: the cursor, which is a column of
        the locked table whenever it is set. */
    method GetCurrentColumn() returns (c: Column?)
      ensures c == currentColumn
      ensures Valid() && c != null ==> currentTable != null && c in currentTable.columns
    {
      c := currentColumn;
    }

    /** sql_context_next_column: the cursor moves to the column after it in
        the locked table's chain, and falls off to NULL after the last;
        once NULL it stays NULL. */
    method NextColumn()
      requires Valid() && (currentTable != null ==> currentTable.Valid())
      modifies this`currentColumn
      ensures Valid()
      ensures old(currentColumn) == null ==> currentColumn == null
      ensures currentTable != null ==> forall k :: 0 <= k < |currentTable.columns| && old(currentColumn) == currentTable.columns[k] ==>
        currentColumn == if k + 1 < |currentTable.columns| then currentTable.columns[k + 1] else null
      ensures currentTable != null && |currentTable.columns| > 0 &&
              old(currentColumn) == currentTable.columns[|currentTable.columns| - 1] ==>
                currentColumn == null
    {
      if currentColumn != null {
        ghost var cs := currentTable.columns;
        ghost var k :| 0 <= k < |cs| && cs[k] == currentColumn;
        LinksAt(cs, k);
        currentColumn := currentColumn.next;
        forall m | 0 <= m < |cs| && old(currentColumn) == cs[m]
          ensures currentColumn == if m + 1 < |cs| then cs[m + 1] else null
        {
          assert m == k;
        }
        assert old(currentColumn) == cs[|cs| - 1] ==> k == |cs| - 1;
      }
    }

    /** sql_context_write_current_row: the locked table is opened when it is
        still closed (with this session's settings), then one row is
        written, the cursor goes back to the first column and the row count
        grows by one; the table stays locked. An open that is fatal leaves
        the table closed; a row that is fatal leaves its partial line in the
        stream's text and neither the cursor nor the count moves. Nothing that
        `Registry()` reads is modified, so only the cursor half of `Valid()`
        is re-established here. */
    method WriteCurrentRow(env: FileEnv, render: FloatFormatter) returns (outcome: Outcome)
      requires Valid() && currentTable != null && currentTable.Valid()
      requires currentTable.out.None? ==> sourceFile.Some?
      requires currentTable.out.None? && (addHeader || addTypes) && AllowHeader(env, dontDrop) ==>
        Named(currentTable.columns)
      modifies this`currentColumn
      modifies currentTable`out, currentTable`filename, currentTable`rows, currentTable`floatFmt
      modifies currentTable`duped, currentTable`freed
      ensures Cursor() && currentTable == old(currentTable) && currentTable.Valid()
      ensures Step(SheetOf(currentTable), outcome) == WriteStep(old(SheetOf(currentTable)), old(currentTable.name),
        old(Options()), env, old(OpenedText(currentTable.out, Options(), env, currentTable.columns)),
        old(ValuesOf(currentTable.columns)), old(RowOutcome(currentTable.columns)), render)
      ensures currentColumn == if outcome.Done? then currentTable.firstColumn else old(currentColumn)
    {
      var t := currentTable;
      outcome := WriteTableRow(t, Options(), env, render);
      ValidKept(t);
      if outcome.Done? {
        currentColumn := t.firstColumn;
      }
    }

    /** sql_context_destroy: the lock is released, then every table is
        freed, first to last. Every column belongs to exactly one table;
        `owner` records which. */
    method Destroy(ghost owner: map<Column, Table>)
      requires Valid() && Owned(tables, owner)
      requires forall k {:trigger tables[k].Valid()} :: 0 <= k < |tables| ==> tables[k].Valid()
      modifies this`currentTable, this`currentColumn
      modifies tables`out, tables`name, tables`filename, tables`duped, tables`freed, tables`prev, tables`next
      modifies owner.Keys
      ensures currentTable == null && currentColumn == null
      ensures forall k :: 0 <= k < |tables| ==> Cleared(tables[k])
    {
      assert TableChainValid(tables) && firstTable == (if |tables| == 0 then null else tables[0]);
      UnlockTable();
      FreeTables(firstTable, tables, owner);
    }
  }

  /** The part of a table that writing a row changes. */
  datatype Sheet = Sheet(out: Option<string>, filename: Option<string>, rows: nat, floatFmt: string)

  function SheetOf(t: Table): (r: Sheet)
    reads t`out, t`filename, t`rows, t`floatFmt
    ensures r.out == t.out && r.filename == t.filename && r.rows == t.rows && r.floatFmt == t.floatFmt
  {
    Sheet(t.out, t.filename, t.rows, t.floatFmt)
  }

  /** A table's state after writing a row, and how the write ends. */
  datatype Step = Step(sheet: Sheet, outcome: Outcome)

  /** What writing a row does to a table named `name` in state `before`,
      with the session's settings `s`: a closed table is first opened (file
      name and float format set; a fatal open leaves it closed and stops),
      then the row `vs` is appended to what the stream held (`prior`), and
      only a whole row (`row` is Done) is counted. */
  function WriteStep(before: Sheet, name: Option<string>, s: Settings, env: FileEnv,
                     prior: string, vs: seq<Value>, row: Outcome, render: FloatFormatter): (r: Step)
    requires before.out.None? ==> s.sourceFile.Some? && name.Some?
  {
    if before.out.Some? then RowStep(before, vs, row, render)
    else
      var f := FileName(s.outDir, s.sourceFile.value, name.value, s.compress);
      if OpenOutcome(s, env, f).Died? then Step(Sheet(None, Some(f), before.rows, s.floatFmt), OpenOutcome(s, env, f))
      else RowStep(Sheet(Some(prior), Some(f), 0, s.floatFmt), vs, row, render)
  }

  /** Writing the row `vs` to an open table: the line is appended and, when
      the row is whole, counted. */
  function RowStep(before: Sheet, vs: seq<Value>, row: Outcome, render: FloatFormatter): (r: Step)
    requires before.out.Some?
  {
    Step(Sheet(Some(before.out.value + RowText(vs, before.floatFmt, render)), before.filename,
               if row.Done? then before.rows + 1 else before.rows, before.floatFmt), row)
  }

  /** Writing a row only ever appends: the stream keeps what it held (or,
      for a table it opens, what opening wrote) as a prefix; the table stays
      closed only when it was closed and opening it was fatal; on an open stream the write
      ends as the row does, and the row count grows by one exactly when
      the row was whole, counting from zero after an open. */
  lemma WriteStepAppends(before: Sheet, name: Option<string>, s: Settings, env: FileEnv,
                         prior: string, vs: seq<Value>, row: Outcome, render: FloatFormatter)
    requires before.out.None? ==> s.sourceFile.Some? && name.Some?
    ensures var r := WriteStep(before, name, s, env, prior, vs, row, render);
      && (before.out.Some? ==> r.sheet.out.Some? && before.out.value <= r.sheet.out.value)
      && (before.out.None? && r.sheet.out.Some? ==> prior <= r.sheet.out.value)
      && (r.sheet.out.None? ==> before.out.None? && r.outcome.Died?)
      && (r.sheet.out.Some? ==> r.outcome == row)
      && (r.sheet.out.Some? ==>
            (row.Done? <==> r.sheet.rows == (if before.out.Some? then before.rows else 0) + 1))
  {
    var r := WriteStep(before, name, s, env, prior, vs, row, render);
    if r.sheet.out.Some? {
      var held := if before.out.Some? then before.out.value else prior;
      var line := RowText(vs, if before.out.Some? then before.floatFmt else s.floatFmt, render);
      assert r.sheet.out.value == held + line;
      assert (held + line)[..|held|] == held;
    }
  }

  /** The table part of sql_context_write_current_row: open the table when
      it is closed, then write the row and count it. */
  method WriteTableRow(t: Table, s: Settings, env: FileEnv, render: FloatFormatter) returns (outcome: Outcome)
    requires t.Valid()
    requires t.out.None? ==> s.sourceFile.Some? && t.name.Some?
    requires t.out.None? && (s.addHeader || s.addTypes) && AllowHeader(env, s.dontDrop) ==> Named(t.columns)
    modifies t`out, t`filename, t`rows, t`floatFmt, t`duped, t`freed
    ensures Step(SheetOf(t), outcome) == WriteStep(old(SheetOf(t)), old(t.name), s, env,
      old(OpenedText(t.out, s, env, t.columns)), old(ValuesOf(t.columns)), old(RowOutcome(t.columns)), render)
  {
    if t.out.None? {
      outcome := t.Open(s, env);
      if outcome.Died? {
        return;
      }
    }
    outcome := WriteOpened(t, render);
  }

  /** The row part of sql_context_write_current_row, on an open table. */
  method WriteOpened(t: Table, render: FloatFormatter) returns (outcome: Outcome)
    requires t.Walkable() && t.out.Some?
    modifies t`out, t`rows
    ensures Step(SheetOf(t), outcome) == RowStep(old(SheetOf(t)), old(ValuesOf(t.columns)), old(RowOutcome(t.columns)), render)
  {
    outcome := t.WriteRow(render);
    if outcome.Done? {
      t.rows := t.rows + 1;
    }
  }

  /** The search loop of add_table and lock_table over the chain `ts` that
      starts at `first`: the first table named `name`, or NULL. */
  method FindTable(first: Table?, ghost ts: seq<Table>, name: string) returns (found: Table?)
    requires TableChainValid(ts) && first == (if |ts| == 0 then null else ts[0])
    requires forall i :: 0 <= i < |ts| ==> ts[i].name.Some?
    ensures found == if FirstNamed(ts, name) < |ts| then ts[FirstNamed(ts, name)] else null
  {
    var it := first;
    ghost var j := 0;
    while it != null
      invariant j <= |ts| && it == (if j < |ts| then ts[j] else null)
      invariant forall i :: 0 <= i < j ==> ts[i].name != Some(name)
      decreases |ts| - j
    {
      if it.name.value == name {
        FirstNamedAt(ts, name, j);
        return it;
      }
      TableLinksAt(ts, j);
      it := it.next;
      j := j + 1;
    }
    FirstNamedAt(ts, name, j);
    return null;
  }

  /** The table loop of sql_context_destroy over the chain `ts` that starts
      at `first`: each table is freed, first to last, until the successor
      saved before the free is NULL. The tables still to come keep a whole
      column chain, so each can be freed when its turn comes. */
  method FreeTables(first: Table?, ghost ts: seq<Table>, ghost owner: map<Column, Table>)
    requires TableChainValid(ts) && first == (if |ts| == 0 then null else ts[0])
    requires Owned(ts, owner) && forall k {:trigger ts[k].Valid()} :: 0 <= k < |ts| ==> ts[k].Valid()
    modifies ts`out, ts`name, ts`filename, ts`duped, ts`freed, ts`prev, ts`next
    modifies owner.Keys
    ensures forall k :: 0 <= k < |ts| ==> Cleared(ts[k])
  {
    assert Distinct(ts);
    var it := first;
    ghost var j := 0;
    while it != null
      invariant j <= |ts| && it == (if j < |ts| then ts[j] else null)
      invariant Distinct(ts) && TableChainValid(ts[j..]) && Owned(ts, owner)
      invariant forall k {:trigger ts[k].Valid()} :: j <= k < |ts| ==> ts[k].Valid()
      invariant forall k :: 0 <= k < j ==> Cleared(ts[k])
      decreases |ts| - j
    {
      it := FreeTurn(it, ts, owner, j);
      j := j + 1;
    }
  }

  /** A freed table: its file is closed and its name and file name are
      released. */
  ghost predicate Cleared(t: Table)
    reads t`out, t`name, t`filename
  {
    t.out == None && t.name == None && t.filename == None
  }

  /** One turn of the table loop of sql_context_destroy, seen from the
      loop: the table at index `j` is freed, the tables freed before it
      stay freed and every table keeps its columns. */
  method FreeTurn(head: Table, ghost ts: seq<Table>, ghost owner: map<Column, Table>, ghost j: nat)
    returns (following: Table?)
    requires j < |ts| && ts[j] == head && Distinct(ts) && TableChainValid(ts[j..]) && Owned(ts, owner)
    requires forall k {:trigger ts[k].Valid()} :: j <= k < |ts| ==> ts[k].Valid()
    requires forall k :: 0 <= k < j ==> Cleared(ts[k])
    modifies head`out, head`name, head`filename, head`duped, head`freed, ts[j..]`prev, ts[j..]`next
    modifies head.columns
    ensures TableChainValid(ts[j + 1..]) && Owned(ts, owner)
    ensures forall k {:trigger ts[k].Valid()} :: j < k < |ts| ==> ts[k].Valid()
    ensures forall k :: 0 <= k <= j ==> Cleared(ts[k])
    ensures following == if j + 1 == |ts| then null else ts[j + 1]
  {
    Separated(ts, owner, j);
    following := FreeAt(head, ts, j);
    forall k | 0 <= k < |ts| ensures ts[k].columns == old(ts[k].columns) {
    }
    forall k | 0 <= k < j ensures Cleared(ts[k]) {
      assert ts[k] != head;
    }
  }

  /** One turn of the table loop of sql_context_destroy: the successor is
      saved and the table at index `j` is freed; the tables after it keep
      their whole column chains. */
  method FreeAt(head: Table, ghost ts: seq<Table>, ghost j: nat) returns (following: Table?)
    requires j < |ts| && ts[j] == head && TableChainValid(ts[j..])
    requires forall k {:trigger ts[k].Valid()} :: j <= k < |ts| ==> ts[k].Valid()
    requires forall k, m :: j < k < |ts| && 0 <= m < |ts[k].columns| ==> ts[k].columns[m] !in head.columns
    modifies head`out, head`name, head`filename, head`duped, head`freed, ts[j..]`prev, ts[j..]`next
    modifies head.columns
    ensures TableChainValid(ts[j + 1..])
    ensures forall k {:trigger ts[k].Valid()} :: j < k < |ts| ==> ts[k].Valid()
    ensures Cleared(head)
    ensures following == if j + 1 == |ts| then null else ts[j + 1]
  {
    ghost var rest := ts[j..];
    TableLinksAt(rest, 0);
    following := head.next;
    head.Free(rest, 0);
    forall k | j < k < |ts| ensures ts[k].Valid() {
      ValidKept(ts[k]);
    }
    assert Removed(rest, 0) == ts[j + 1..];
  }

  /** Tables own disjoint sets of columns: no column of a table after
      index `j` is one of the columns of the table at `j`. */
  lemma Separated(ts: seq<Table>, owner: map<Column, Table>, j: nat)
    requires Distinct(ts) && Owned(ts, owner) && j < |ts|
    ensures forall k, m :: j < k < |ts| && 0 <= m < |ts[k].columns| ==> ts[k].columns[m] !in ts[j].columns
  {
    forall k, m | j < k < |ts| && 0 <= m < |ts[k].columns| ensures ts[k].columns[m] !in ts[j].columns {
      assert ts[k] != ts[j];
    }
  }

  /** A table's column chain stays whole while neither the table's chain
      fields nor the links of its columns change. */
  twostate lemma ValidKept(t: Table)
    requires old(t.Valid())
    requires unchanged(t`columns, t`firstColumn, t`lastColumn)
    requires forall m :: 0 <= m < |t.columns| ==>
      t.columns[m].prev == old(t.columns[m].prev) && t.columns[m].next == old(t.columns[m].next)
    ensures t.Valid()
  {
  }
}
