/** Tables (sql_table.c): an ordered chain of columns, an output stream
    opened lazily under a naming and header policy, and the writers for the
    header line, the type line and the data rows.

    The output stream is modelled by the text it carries: `out` is None while
    the FILE pointer is NULL, and Some(text) while a stream is open, where
    text is what the file holds through that stream (what an append-mode open
    found there, then everything written since). */
module SqlTable {
  import opened Sql
  import opened CsvText
  import opened SqlColumn

  /** The session options that `open` reads from its context argument. */
  datatype Settings = Settings(
    compress: bool,
    dontDrop: bool,
    addHeader: bool,
    addTypes: bool,
    outDir: Option<string>,
    sourceFile: Option<string>,
    floatFmt: string)

  /** What the file system and the build answer while a table is opened:
      the file's current content when it exists, whether `access(W_OK)`
      grants writing, whether `fopen` (or `gzopen` and `fopencookie`)
      succeeds, and whether the program was built with zlib. */
  datatype FileEnv = FileEnv(existing: Option<string>, writable: bool, opens: bool, zlib: bool)

  /** printf with the table's float format applied to a `long double`; the
      core treats it as a black box supplied from outside. */
  type FloatFormatter = (string, LongDouble) -> string

  /** The output file: `[out_dir/]source.table.csv[.gz]`. */
  function FileName(outDir: Option<string>, source: string, table: string, compress: bool): (f: string)
  {
    (if outDir.Some? then outDir.value + "/" else "")
    + source + "." + table + ".csv" + (if compress then ".gz" else "")
  }

  /** The file name ends in `.csv.gz` when compressing and in `.csv`
      otherwise, and starts with `dir/` when an output directory is set. */
  lemma FileNameShape(outDir: Option<string>, source: string, table: string, compress: bool)
    ensures var f := FileName(outDir, source, table, compress);
      && (compress ==> |f| >= 7 && f[|f| - 7..] == ".csv.gz")
      && (!compress ==> |f| >= 4 && f[|f| - 4..] == ".csv")
      && (outDir.Some? ==> |f| > |outDir.value| && f[..|outDir.value| + 1] == outDir.value + "/")
  {
    var f := FileName(outDir, source, table, compress);
    assert outDir.Some? ==> f[..|outDir.value| + 1] == outDir.value + "/";
  }

  /** Compression changes the file name only by the `.gz` suffix. */
  lemma FileNameCompressed(outDir: Option<string>, source: string, table: string)
    ensures FileName(outDir, source, table, true) == FileName(outDir, source, table, false) + ".gz"
  {
  }

  /** An output directory changes the file name only by the `dir/` prefix. */
  lemma FileNameInDir(dir: string, source: string, table: string, compress: bool)
    ensures FileName(Some(dir), source, table, compress) == dir + "/" + FileName(None, source, table, compress)
  {
  }

  /** `access(filename, W_OK) == 0`: the file exists and may be written. */
  predicate WritableExists(env: FileEnv)
  {
    env.existing.Some? && env.writable
  }

  /** Header and type lines may be written unless the file is appended to
      and already exists. */
  predicate AllowHeader(env: FileEnv, dontDrop: bool)
  {
    !WritableExists(env) || !dontDrop
  }

  /** What a freshly opened stream holds: mode "a" keeps an existing file's
      content, mode "w" truncates. */
  function Start(env: FileEnv, dontDrop: bool): (text: string)
  {
    if dontDrop && env.existing.Some? then env.existing.value else ""
  }

  /** How opening a file ends: a build without zlib cannot compress, and a
      file that will not open aborts. */
  function OpenOutcome(s: Settings, env: FileEnv, f: string): (outcome: Outcome)
  {
    if s.compress && !env.zlib then Died(NoCompression)
    else if !env.opens then Died(CannotOpen(f))
    else Done
  }

  /** The lines `open` writes after opening, header before types. */
  ghost function Prologue(s: Settings, allow: bool, cs: seq<Column>): (text: string)
    reads cs
    requires (s.addHeader || s.addTypes) && allow ==> Named(cs)
  {
    (if s.addHeader && allow then HeaderLine(NamesOf(cs)) else "")
    + (if s.addTypes && allow then TypesLine(NamesOf(cs), ValuesOf(cs)) else "")
  }

  /** Appending to a file that is already there writes neither a header nor a
      type line, so the new rows follow the old ones directly. */
  lemma AppendSuppressesHeader(s: Settings, env: FileEnv, cs: seq<Column>)
    requires s.dontDrop && WritableExists(env)
    ensures Start(env, s.dontDrop) + Prologue(s, AllowHeader(env, s.dontDrop), cs) == env.existing.value
  {
  }

  /** The header line: the column names separated by commas. */
  function HeaderLine(names: seq<string>): (line: string)
  {
    Join(names) + "\n"
  }

  /** The type tokens of the type line. */
  function TypeToken(v: Value): (token: string)
  {
    match v
    case NoValue => "none"
    case IntValue(_) => "int"
    case FloatValue(_) => "float"
    case StrValue(_) => "string"
  }

  function TypePairs(names: seq<string>, values: seq<Value>): (ps: seq<string>)
    requires |names| == |values|
    ensures |ps| == |names|
    ensures forall i :: 0 <= i < |ps| ==> ps[i] == names[i] + ":" + TypeToken(values[i])
  {
    seq(|names|, i requires 0 <= i < |names| => names[i] + ":" + TypeToken(values[i]))
  }

  /** The type line: `# ` before the first `name:type` pair, commas between
      pairs; a table without columns gets only the newline. */
  function TypesLine(names: seq<string>, values: seq<Value>): (line: string)
    requires |names| == |values|
  {
    (if |names| == 0 then "" else "# " + Join(TypePairs(names, values))) + "\n"
  }

  /** Round trip for the header: cutting the header line at its commas gives
      back the column names, in order, when no name holds a comma. */
  lemma HeaderRoundTrip(names: seq<string>)
    requires |names| > 0
    requires forall i :: 0 <= i < |names| ==> ',' !in names[i]
    ensures HeaderLine(names)[|HeaderLine(names)| - 1] == '\n'
    ensures Split(HeaderLine(names)[..|HeaderLine(names)| - 1]) == names
  {
    var h := HeaderLine(names);
    assert h[..|h| - 1] == Join(names);
    SplitJoin(names);
  }

  /** Round trip for the type line: after the `# ` marker it splits into one
      `name:type` field per column, each with the literal type token. */
  lemma TypesRoundTrip(names: seq<string>, values: seq<Value>)
    requires |names| == |values| > 0
    requires forall i :: 0 <= i < |names| ==> ',' !in names[i]
    ensures TypesLine(names, values)[..2] == "# "
    ensures var t := TypesLine(names, values);
      t[|t| - 1] == '\n' && Split(t[2..|t| - 1]) == TypePairs(names, values)
  {
    var ps := TypePairs(names, values);
    var t := TypesLine(names, values);
    assert t[2..|t| - 1] == Join(ps);
    forall i | 0 <= i < |ps| ensures ',' !in ps[i] {
      PairCommaFree(names[i], values[i]);
    }
    SplitJoin(ps);
  }

  /** A `name:type` pair holds a comma only when the name does. */
  lemma PairCommaFree(name: string, v: Value)
    requires ',' !in name
    ensures ',' !in name + ":" + TypeToken(v)
  {
    var p := name + ":" + TypeToken(v);
    forall k | 0 <= k < |p| ensures p[k] != ',' {
      if k < |name| {
        assert p[k] == name[k];
      } else if k > |name| {
        assert p[k] == TypeToken(v)[k - |name| - 1];
      }
    }
  }

  /** The cell types a data row can hold; any other aborts write_row. */
  predicate Writable(v: Value)
  {
    v.IntValue? || v.FloatValue?
  }

  /** One field of a data row: `%lli` for an int, the float format for a
      float. */
  function Field(v: Value, fmt: string, render: FloatFormatter): (field: string)
  {
    match v
    case IntValue(x) => Decimal(x as int)
    case FloatValue(f) => render(fmt, f)
    case _ => ""
  }

  function Fields(vs: seq<Value>, fmt: string, render: FloatFormatter): (fs: seq<string>)
    ensures |fs| == |vs|
    ensures forall i :: 0 <= i < |vs| ==> fs[i] == Field(vs[i], fmt, render)
  {
    seq(|vs|, i requires 0 <= i < |vs| => Field(vs[i], fmt, render))
  }

  /** The index of the first cell write_row cannot write, or the number of
      cells when it can write them all. */
  function FirstUnwritable(vs: seq<Value>): (k: nat)
    ensures k <= |vs|
  {
    if |vs| == 0 || !Writable(vs[0]) then 0 else 1 + FirstUnwritable(vs[1..])
  }

  /** Every cell before the first unwritable one is writable, and the cell
      it names (if any) is not. */
  lemma {:induction false} FirstUnwritableIsFirst(vs: seq<Value>)
    ensures forall i :: 0 <= i < FirstUnwritable(vs) ==> Writable(vs[i])
    ensures FirstUnwritable(vs) < |vs| ==> !Writable(vs[FirstUnwritable(vs)])
  {
    if |vs| > 0 && Writable(vs[0]) {
      FirstUnwritableIsFirst(vs[1..]);
      forall i | 0 < i < FirstUnwritable(vs) ensures Writable(vs[i]) {
        assert vs[i] == vs[1..][i - 1];
      }
    }
  }

  /** Everything write_row emits: the fields up to the first unwritable cell
      with their separating commas, then either the newline (all cells were
      written) or, when the unwritable cell is not the first, the comma
      already printed before it. */
  function RowText(vs: seq<Value>, fmt: string, render: FloatFormatter): (line: string)
  {
    var k := FirstUnwritable(vs);
    Join(Fields(vs[..k], fmt, render))
    + (if k == |vs| then "\n" else if k > 0 then "," else "")
  }

  /** How write_row ends: normally, or in sql_die naming the first column
      it cannot write. */
  ghost function RowOutcome(cs: seq<Column>): (outcome: Outcome)
    reads cs
  {
    var k := FirstUnwritable(ValuesOf(cs));
    if k == |cs| then Done else Died(InvalidType(cs[k].name))
  }

  /** write_row ends normally exactly when every cell is an int or a float;
      otherwise it dies naming a column whose cell is neither. */
  lemma RowOutcomeWritable(cs: seq<Column>)
    ensures RowOutcome(cs).Done? <==> forall i :: 0 <= i < |cs| ==> Writable(cs[i].value)
    ensures RowOutcome(cs).Died? ==>
      exists i :: 0 <= i < |cs| && !Writable(cs[i].value) && RowOutcome(cs) == Died(InvalidType(cs[i].name))
  {
    var vs := ValuesOf(cs);
    var k := FirstUnwritable(vs);
    FirstUnwritableIsFirst(vs);
    if k < |cs| {
      assert !Writable(cs[k].value);
    }
  }

  /** Round trip for a complete data row: it is one line, it splits into
      exactly one field per column, and every int field parses back to the
      cell's value; a float field is whatever the formatter printed. */
  lemma RowRoundTrip(vs: seq<Value>, fmt: string, render: FloatFormatter)
    requires |vs| > 0 && FirstUnwritable(vs) == |vs|
    requires forall i :: 0 <= i < |vs| && vs[i].FloatValue? ==>
      ',' !in render(fmt, vs[i].f) && '\n' !in render(fmt, vs[i].f)
    ensures var r := RowText(vs, fmt, render);
      && r[|r| - 1] == '\n' && '\n' !in r[..|r| - 1]
      && |Split(r[..|r| - 1])| == |vs|
      && forall i :: 0 <= i < |vs| && vs[i].IntValue? ==>
           ParseDecimal(Split(r[..|r| - 1])[i]) == vs[i].i as int
  {
    var fs := Fields(vs, fmt, render);
    var r := RowText(vs, fmt, render);
    assert vs[..|vs|] == vs;
    assert r[..|r| - 1] == Join(fs);
    forall i | 0 <= i < |fs| ensures ',' !in fs[i] && '\n' !in fs[i] {
      assert fs[i] == Field(vs[i], fmt, render);
    }
    SplitJoin(fs);
    JoinAvoids(fs, '\n');
    forall i | 0 <= i < |vs| && vs[i].IntValue?
      ensures ParseDecimal(Split(r[..|r| - 1])[i]) == vs[i].i as int
    {
      DecimalRoundTrip(vs[i].i as int);
    }
  }

  /** A row that aborts leaves behind exactly the fields before the bad cell
      and, unless that cell is the first, one more comma; no newline. */
  lemma RowAbortLeavesPartialLine(vs: seq<Value>, fmt: string, render: FloatFormatter)
    requires FirstUnwritable(vs) < |vs|
    requires forall i :: 0 <= i < |vs| && vs[i].FloatValue? ==> '\n' !in render(fmt, vs[i].f)
    ensures '\n' !in RowText(vs, fmt, render)
  {
    var k := FirstUnwritable(vs);
    FieldsAvoidNewline(vs, fmt, render, k);
    assert RowText(vs, fmt, render) == Join(Fields(vs[..k], fmt, render)) + (if k > 0 then "," else "");
  }

  /** The fields of the first `k` cells, joined, hold no newline when no
      float field does. */
  lemma FieldsAvoidNewline(vs: seq<Value>, fmt: string, render: FloatFormatter, k: nat)
    requires k <= |vs|
    requires forall i :: 0 <= i < |vs| && vs[i].FloatValue? ==> '\n' !in render(fmt, vs[i].f)
    ensures '\n' !in Join(Fields(vs[..k], fmt, render))
  {
    var fs := Fields(vs[..k], fmt, render);
    forall i | 0 <= i < |fs| ensures '\n' !in fs[i] {
      assert fs[i] == Field(vs[i], fmt, render);
    }
    JoinAvoids(fs, '\n');
  }

  /** Every column of `cs` has a name: the header and type writers print
      each name with `%s`, which must not be NULL. */
  ghost predicate Named(cs: seq<Column>)
    reads cs
  {
    forall i :: 0 <= i < |cs| ==> cs[i].name.Some?
  }

  ghost function NamesOf(cs: seq<Column>): (ns: seq<string>)
    reads cs
    requires Named(cs)
    ensures |ns| == |cs|
    ensures forall i :: 0 <= i < |cs| ==> ns[i] == cs[i].name.value
  {
    seq(|cs|, i requires 0 <= i < |cs| && cs[i].name.Some? reads cs => cs[i].name.value)
  }

  ghost function ValuesOf(cs: seq<Column>): (vs: seq<Value>)
    reads cs
    ensures |vs| == |cs|
    ensures forall i :: 0 <= i < |cs| ==> vs[i] == cs[i].value
  {
    seq(|cs|, i requires 0 <= i < |cs| reads cs => cs[i].value)
  }

  /** Appending two texts one after the other appends their concatenation
      (stated once here so that the prologue proof does not re-derive it). */
  lemma AppendAssoc(a: string, b: string, c: string)
    ensures (a + b) + c == a + (b + c)
  {
  }

  /** The tables of `ts`, in order, form one whole chain (the table chain
      counterpart of ChainValid). */
  ghost predicate TableChainValid(ts: seq<Table>)
    reads ts`prev, ts`next
  {
    && (forall i, j :: 0 <= i < j < |ts| ==> ts[i] != ts[j])
    && (|ts| > 0 ==> ts[0].prev == null && ts[|ts| - 1].next == null)
    && (forall i :: 0 <= i < |ts| - 1 ==> ts[i].next == ts[i + 1])
    && (forall i :: 0 < i < |ts| ==> ts[i].prev == ts[i - 1])
  }

  /** The links of the table at index `j` of a chain. */
  lemma TableLinksAt(ts: seq<Table>, j: nat)
    requires TableChainValid(ts) && j < |ts|
    ensures ts[j].prev == if j == 0 then null else ts[j - 1]
    ensures ts[j].next == if j == |ts| - 1 then null else ts[j + 1]
  {
  }

  class Table {
    var out: Option<string>
    var name: Option<string>
    var filename: Option<string>
    var firstColumn: Column?
    var lastColumn: Column?
    var prev: Table?
    var next: Table?
    var rows: nat
    var dropData: bool
    /** The float format copied from the session when the table is opened. */
    var floatFmt: string

    /** The column chain, first to last. */
    ghost var columns: seq<Column>
    /** Texts this table obtained from sql_xstrdup and handed to sql_xfree. */
    ghost var duped: multiset<string>
    ghost var freed: multiset<string>

    /** The column chain is whole and its ends are `first_column` and
        `last_column`. */
    ghost predicate Valid()
      reads this`columns, this`firstColumn, this`lastColumn, columns
    {
      && ChainValid(columns)
      && firstColumn == (if |columns| == 0 then null else columns[0])
      && lastColumn == (if |columns| == 0 then null else columns[|columns| - 1])
    }

    /** The walk the writers make: from `first_column` along `next`
        through every column, then NULL. Valid implies it. */
    ghost predicate Walkable()
      reads this`columns, this`firstColumn, columns
    {
      Forward(columns) && firstColumn == (if |columns| == 0 then null else columns[0])
    }

    ghost function Live(): (held: multiset<string>)
      reads this`name, this`filename
    {
      OptText(name) + OptText(filename)
    }

    /** No leak and no double free of the name and the file name. */
    ghost predicate Owns()
      reads this`name, this`filename, this`duped, this`freed
    {
      duped == freed + Live()
    }

    /** sql_table_new: closed, unnamed, no columns, no siblings, no rows. */
    constructor ()
      ensures out == None && name == None && filename == None
      ensures firstColumn == null && lastColumn == null && prev == null && next == null
      ensures rows == 0 && !dropData
      ensures columns == [] && Valid()
      ensures duped == multiset{} && freed == multiset{} && Owns()
    {
      out := None;
      name := None;
      filename := None;
      firstColumn := null;
      lastColumn := null;
      prev := null;
      next := null;
      rows := 0;
      dropData := false;
      floatFmt := "";
      columns := [];
      duped := multiset{};
      freed := multiset{};
    }

    /** sql_table_set_name: the old name is released, then a copy of `n`
        (NULL for NULL) becomes the name. */
    method SetName(n: Option<string>)
      modifies this`name, this`duped, this`freed
      ensures name == n
      ensures freed == old(freed) + OptText(old(name))
      ensures duped == old(duped) + OptText(n)
      ensures old(Owns()) ==> Owns()
    {
      ghost var gone := OptText(name);
      if name.Some? {
        name := None;
      }
      name := n;
      if old(Owns()) {
        Exchange(duped, freed, gone, OptText(n), OptText(filename));
      }
      freed := freed + gone;
      duped := duped + OptText(n);
    }

    /** sql_table_set_file: the old file name is released, then a copy of
        `f` (NULL for NULL) becomes the file name. */
    method SetFile(f: Option<string>)
      modifies this`filename, this`duped, this`freed
      ensures filename == f
      ensures freed == old(freed) + OptText(old(filename))
      ensures duped == old(duped) + OptText(f)
      ensures old(Owns()) ==> Owns()
    {
      ghost var gone := OptText(filename);
      if filename.Some? {
        filename := None;
      }
      filename := f;
      if old(Owns()) {
        ExchangeLast(duped, freed, gone, OptText(f), OptText(name));
      }
      freed := freed + gone;
      duped := duped + OptText(f);
    }

    /** Appends an unlinked column at the tail of the chain.
        sql_table_add_column is declared in the header but its body is not
        part of this model; this operation mirrors the tail append of
        sql_context_add_table instead. */
    method AddColumn(c: Column)
      requires Valid()
      requires c !in columns && c.prev == null && c.next == null
      modifies this`firstColumn, this`lastColumn, this`columns, columns`next, c`prev
      ensures Valid()
      ensures columns == old(columns) + [c]
    {
      if firstColumn == null {
        firstColumn := c;
      }
      if lastColumn != null {
        lastColumn.next := c;
        c.prev := lastColumn;
      }
      lastColumn := c;
      columns := columns + [c];
      forall m | 0 <= m < |columns| - 2
        ensures columns[m].next == columns[m + 1]
      {
        assert columns[m] != old(lastColumn);
      }
    }

    /** sql_table_open: nothing happens when the table is already open.
        Otherwise the file name is built and stored, the float format copied,
        and the file opened in append mode under `dont_drop`, truncated
        otherwise; the header line and then the type line follow when they
        are enabled and the file is not appended to where it already exists.
        A missing zlib and a failed open abort. */
    method Open(s: Settings, env: FileEnv) returns (outcome: Outcome)
      requires Valid()
      requires out.None? ==> s.sourceFile.Some? && name.Some?
      requires out.None? && (s.addHeader || s.addTypes) && AllowHeader(env, s.dontDrop) ==> Named(columns)
      modifies this`out, this`filename, this`rows, this`floatFmt, this`duped, this`freed
      ensures Valid()
      ensures old(out).Some? ==>
        outcome == Done && out == old(out) && filename == old(filename) && rows == old(rows)
        && floatFmt == old(floatFmt) && duped == old(duped) && freed == old(freed)
      ensures old(out).None? ==>
        var f := FileName(s.outDir, s.sourceFile.value, name.value, s.compress);
        && filename == Some(f) && floatFmt == s.floatFmt
        && outcome == OpenOutcome(s, env, f)
        && (outcome.Died? ==> out == None && rows == old(rows))
        && (outcome.Done? ==>
              var allow := AllowHeader(env, s.dontDrop);
              rows == 0
              && out == Some(Start(env, s.dontDrop) + old(Prologue(s, allow, columns))))
      ensures old(Owns()) ==> Owns()
    {
      if out.Some? {
        return Done;
      }
      outcome := OpenFile(s, env);
    }

    /** sql_table_open on a closed table: the file name is built and
        stored, then the stream is opened (see `OpenStream`). */
    method OpenFile(s: Settings, env: FileEnv) returns (outcome: Outcome)
      requires Walkable() && out.None? && s.sourceFile.Some? && name.Some?
      requires (s.addHeader || s.addTypes) && AllowHeader(env, s.dontDrop) ==> Named(columns)
      modifies this`out, this`filename, this`rows, this`floatFmt, this`duped, this`freed
      ensures var f := FileName(s.outDir, s.sourceFile.value, name.value, s.compress);
        && filename == Some(f) && floatFmt == s.floatFmt
        && outcome == OpenOutcome(s, env, f)
        && (outcome.Died? ==> out == None && rows == old(rows))
        && (outcome.Done? ==>
              var allow := AllowHeader(env, s.dontDrop);
              rows == 0
              && out == Some(Start(env, s.dontDrop) + old(Prologue(s, allow, columns))))
      ensures old(Owns()) ==> Owns()
    {
      var f := FileName(s.outDir, s.sourceFile.value, name.value, s.compress);
      var allowHeader := !(env.existing.Some? && env.writable) || !s.dontDrop;
      StoreFile(f);
      outcome := OpenStream(s, env, f, allowHeader);
    }

    /** The file name step of sql_table_open, seen from the ownership log
        only. */
    method StoreFile(f: string)
      modifies this`filename, this`duped, this`freed
      ensures filename == Some(f)
      ensures old(Owns()) ==> Owns()
    {
      SetFile(Some(f));
    }

    /** The second half of sql_table_open: the float format is copied, the
        stream opened in append mode under `dont_drop` and truncating
        otherwise, or the process dies; on success the row count restarts
        and the prologue is written. */
    method OpenStream(s: Settings, env: FileEnv, f: string, allow: bool) returns (outcome: Outcome)
      requires Walkable() && out.None? && allow == AllowHeader(env, s.dontDrop)
      requires (s.addHeader || s.addTypes) && allow ==> Named(columns)
      modifies this`out, this`rows, this`floatFmt
      ensures floatFmt == s.floatFmt
      ensures outcome == OpenOutcome(s, env, f)
      ensures outcome.Died? ==> out == None && rows == old(rows)
      ensures outcome.Done? ==> rows == 0 && out == Some(Start(env, s.dontDrop) + old(Prologue(s, allow, columns)))
    {
      var append := s.dontDrop;
      floatFmt := s.floatFmt;
      if s.compress && !env.zlib {
        return Died(NoCompression);
      }
      if !env.opens {
        return Died(CannotOpen(f));
      }
      out := Some(if append && env.existing.Some? then env.existing.value else "");
      rows := 0;
      WritePrologue(s, allow);
      outcome := Done;
    }

    /** The tail of sql_table_open: sql_table_write_header, then
        sql_table_write_types, each when it is enabled and allowed. */
    method WritePrologue(s: Settings, allow: bool)
      requires Walkable() && out.Some?
      requires (s.addHeader || s.addTypes) && allow ==> Named(columns)
      modifies this`out
      ensures out == Some(old(out).value + old(Prologue(s, allow, columns)))
    {
      ghost var start := out.value;
      ghost var header := if s.addHeader && allow then HeaderLine(NamesOf(columns)) else "";
      ghost var types := if s.addTypes && allow then TypesLine(NamesOf(columns), ValuesOf(columns)) else "";
      assert Prologue(s, allow, columns) == header + types;
      if s.addHeader && allow {
        WriteHeader();
      }
      assert out.value == start + header;
      if s.addTypes && allow {
        WriteTypes();
      }
      assert out.value == (start + header) + types;
      AppendAssoc(start, header, types);
    }

    /** sql_table_write_header. */
    method WriteHeader()
      requires Walkable() && out.Some? && Named(columns)
      modifies this`out
      ensures out == Some(old(out).value + old(HeaderLine(NamesOf(columns))))
    {
      var line := HeaderText();
      out := Some(out.value + line);
    }

    /** The line sql_table_write_header prints: the column names in chain
        order, separated by commas, then a newline. */
    method HeaderText() returns (line: string)
      requires Walkable() && Named(columns)
      ensures line == HeaderLine(NamesOf(columns))
    {
      line := HeaderChain(firstColumn, columns);
    }

    /** sql_table_write_types. */
    method WriteTypes()
      requires Walkable() && out.Some? && Named(columns)
      modifies this`out
      ensures out == Some(old(out).value + old(TypesLine(NamesOf(columns), ValuesOf(columns))))
    {
      var line := TypesText();
      out := Some(out.value + line);
    }

    /** The line sql_table_write_types prints: `# ` before the first column,
        commas between columns, each column as `name:type` with the literal
        type token, then a newline. */
    method TypesText() returns (line: string)
      requires Walkable() && Named(columns)
      ensures line == TypesLine(NamesOf(columns), ValuesOf(columns))
    {
      line := TypesChain(firstColumn, columns);
    }

    /** sql_table_write_row. */
    method WriteRow(render: FloatFormatter) returns (outcome: Outcome)
      requires Walkable() && out.Some?
      modifies this`out
      ensures out == Some(old(out).value + old(RowText(ValuesOf(columns), floatFmt, render)))
      ensures outcome == old(RowOutcome(columns))
    {
      var line;
      line, outcome := FormatRow(render);
      out := Some(out.value + line);
    }

    /** What sql_table_write_row prints: one field per column in chain
        order, separated by commas and ended by a newline. The first column
        that is neither int nor float aborts, after the fields before it
        (and the comma after them) have been printed. */
    method FormatRow(render: FloatFormatter) returns (line: string, outcome: Outcome)
      requires Walkable()
      ensures line == RowText(ValuesOf(columns), floatFmt, render)
      ensures outcome == RowOutcome(columns)
    {
      ghost var k;
      line, outcome, k := RowChain(firstColumn, columns, floatFmt, render);
    }

    /** sql_table_close: the stream is closed if it is open; afterwards it
        is NULL either way, so a second close changes nothing. */
    method Close()
      modifies this`out
      ensures out == None
    {
      if out.Some? {
        out := None;
      }
    }

    /** sql_table_del_sibbling: the neighbours are linked past this table;
        its own links are left as they were. */
    method DelSibling(ghost ts: seq<Table>, ghost i: nat)
      requires TableChainValid(ts) && i < |ts| && ts[i] == this
      modifies ts`prev, ts`next
      ensures TableChainValid(Removed(ts, i))
      ensures prev == old(prev) && next == old(next)
    {
      TableLinksAt(ts, i);
      if prev != null {
        prev.next := next;
      }
      if next != null {
        next.prev := prev;
      }
    }

    /** sql_table_free: the table's own part is released (see `Release`),
        then every column is freed from first to last. */
    method Free(ghost ts: seq<Table>, ghost i: nat)
      requires Valid() && TableChainValid(ts) && i < |ts| && ts[i] == this
      modifies this`out, this`name, this`filename, this`duped, this`freed
      modifies ts`prev, ts`next, columns
      ensures out == None && name == None && filename == None
      ensures prev == old(prev) && next == old(next)
      ensures TableChainValid(Removed(ts, i))
      ensures old(Owns()) ==> duped == freed
      ensures forall k :: 0 <= k < |columns| ==> columns[k].name == None && columns[k].value == NoValue
    {
      Release();
      label Released:
      Detach(ts, i);
      assert out == old@Released(out) && name == old@Released(name) && filename == old@Released(filename);
      assert duped == old@Released(duped) && freed == old@Released(freed);
    }

    /** The last steps of sql_table_free: the table is unlinked from its
        chain, then every column is freed from first to last. */
    method Detach(ghost ts: seq<Table>, ghost i: nat)
      requires Valid() && TableChainValid(ts) && i < |ts| && ts[i] == this
      modifies ts`prev, ts`next, columns
      ensures prev == old(prev) && next == old(next)
      ensures TableChainValid(Removed(ts, i))
      ensures forall k :: 0 <= k < |columns| ==> columns[k].name == None && columns[k].value == NoValue
    {
      DelSibling(ts, i);
      ghost var r := Removed(ts, i);
      label Unlinked:
      FreeColumns();
      forall k | 0 <= k < |r| ensures r[k].prev == old@Unlinked(r[k].prev) && r[k].next == old@Unlinked(r[k].next) {
      }
    }

    /** The first steps of sql_table_free: the table is closed and its name
        and file name are released. */
    method Release()
      modifies this`out, this`name, this`filename, this`duped, this`freed
      ensures out == None && name == None && filename == None
      ensures old(Owns()) ==> duped == freed
    {
      Close();
      SetName(None);
      SetFile(None);
    }

    /** The column loop of sql_table_free: every column is freed, first
        to last. */
    method FreeColumns()
      requires Valid()
      modifies columns
      ensures forall k :: 0 <= k < |columns| ==> columns[k].name == None && columns[k].value == NoValue
    {
      FreeChain(firstColumn, columns);
    }
  }

  /** The column loop of sql_table_free over the chain `cs` that starts at
      `first`: each column is freed (which unlinks it from the ones still
      to come), first to last, until the successor saved before the free
      is NULL. */
  method FreeChain(first: Column?, ghost cs: seq<Column>)
    requires ChainValid(cs) && first == (if |cs| > 0 then cs[0] else null)
    modifies cs
    ensures forall k :: 0 <= k < |cs| ==> cs[k].name == None && cs[k].value == NoValue
  {
    ghost var rest := cs;
    ghost var gone: set<Column> := {};
    ghost var j := 0;
    var it := first;
    while it != null
      invariant j <= |cs| && rest == cs[j..]
      invariant it == (if |rest| > 0 then rest[0] else null)
      invariant forall m :: 0 <= m < j ==> cs[m] in gone
      invariant Unfreed(rest, gone) && Freed(gone)
      decreases |rest|
    {
      it := FreeHead(it, rest, gone);
      gone := gone + {rest[0]};
      rest := rest[1..];
      j := j + 1;
    }
  }

  /** The columns still to be freed form a chain and none of them is freed. */
  ghost predicate Unfreed(rest: seq<Column>, gone: set<Column>)
    reads rest
  {
    ChainValid(rest) && forall k :: 0 <= k < |rest| ==> rest[k] !in gone
  }

  /** The columns already freed hold no name and no value. */
  ghost predicate Freed(gone: set<Column>)
    reads gone
  {
    forall c :: c in gone ==> c.name == None && c.value == NoValue
  }

  /** One turn of the column loop of sql_table_free: the successor is saved,
      the head of the remaining chain is freed, and the successor is the
      head of what remains. */
  method FreeHead(head: Column, ghost rest: seq<Column>, ghost gone: set<Column>)
    returns (following: Column?)
    requires Unfreed(rest, gone) && Freed(gone) && |rest| > 0 && rest[0] == head
    modifies rest
    ensures Unfreed(rest[1..], gone + {head})
    ensures Freed(gone + {head})
    ensures following == if |rest| == 1 then null else rest[1]
  {
    LinksAt(rest, 0);
    following := head.next;
    head.Free(rest, 0);
    assert Removed(rest, 0) == rest[1..];
    forall k | 0 <= k < |rest| - 1 ensures rest[1..][k] !in gone + {head} {
      assert rest[1..][k] == rest[k + 1] != rest[0];
    }
    forall c | c in gone ensures c.name == None && c.value == NoValue {
      assert c != head;
    }
  }

  /** The loop of sql_table_write_header over the chain `cs` that starts at
      `first`: the names separated by commas, then the newline. */
  method HeaderChain(first: Column?, ghost cs: seq<Column>) returns (line: string)
    requires Forward(cs) && first == (if |cs| > 0 then cs[0] else null) && Named(cs)
    ensures line == HeaderLine(NamesOf(cs))
  {
    ghost var names := NamesOf(cs);
    line := "";
    var isFirst := true;
    var it := first;
    ghost var j := 0;
    while it != null
      invariant j <= |cs| && it == (if j < |cs| then cs[j] else null)
      invariant isFirst <==> j == 0
      invariant line == Join(names[..j])
      decreases |cs| - j
    {
      NextAt(cs, j);
      JoinStep(names, j);
      var sep := if isFirst then "" else ",";
      line := line + sep + it.name.value;
      isFirst := false;
      it := it.next;
      j := j + 1;
    }
    assert names[..j] == names;
    line := line + "\n";
  }

  /** The loop of sql_table_write_types over the chain `cs` that starts at
      `first`: `# ` before the first pair, a comma before every other, then
      the newline. */
  method TypesChain(first: Column?, ghost cs: seq<Column>) returns (line: string)
    requires Forward(cs) && first == (if |cs| > 0 then cs[0] else null) && Named(cs)
    ensures line == TypesLine(NamesOf(cs), ValuesOf(cs))
  {
    ghost var pairs := TypePairs(NamesOf(cs), ValuesOf(cs));
    line := "";
    var isFirst := true;
    var it := first;
    ghost var j := 0;
    while it != null
      invariant j <= |cs| && it == (if j < |cs| then cs[j] else null)
      invariant isFirst <==> j == 0
      invariant line == TypesSoFar(pairs, j)
      decreases |cs| - j
    {
      NextAt(cs, j);
      var sep := if isFirst then "# " else ",";
      var pair := it.name.value + ":" + TypeToken(it.value);
      assert pair == pairs[j];
      line := line + sep + pair;
      isFirst := false;
      it := it.next;
      j := j + 1;
    }
    TypesLineSoFar(NamesOf(cs), ValuesOf(cs));
    line := line + "\n";
  }

  /** What write_types has printed after `j` columns: `# ` before the
      first pair, a comma before every other. */
  function TypesSoFar(pairs: seq<string>, j: nat): (text: string)
    requires j <= |pairs|
  {
    if j == 0 then "" else TypesSoFar(pairs, j - 1) + (if j == 1 then "# " else ",") + pairs[j - 1]
  }

  /** The type line is what write_types prints for every column, then the
      newline. */
  lemma TypesLineSoFar(names: seq<string>, values: seq<Value>)
    requires |names| == |values|
    ensures TypesLine(names, values) == TypesSoFar(TypePairs(names, values), |names|) + "\n"
  {
    var pairs := TypePairs(names, values);
    if |names| > 0 {
      TypesSoFarJoin(pairs, |names|);
      assert pairs[..|names|] == pairs;
    }
  }

  /** After at least one column, the printed pairs are the marker and the
      comma-joined pairs. */
  lemma {:induction false} TypesSoFarJoin(pairs: seq<string>, j: nat)
    requires 0 < j <= |pairs|
    ensures TypesSoFar(pairs, j) == "# " + Join(pairs[..j])
  {
    if j > 1 {
      TypesSoFarJoin(pairs, j - 1);
      JoinStep(pairs, j - 1);
      var a := Join(pairs[..j - 1]);
      assert "# " + a + "," + pairs[j - 1] == "# " + (a + "," + pairs[j - 1]);
    }
  }

  /** The loop of sql_table_write_row over the chain `cs` that starts at
      `first`, with the table's float format `fmt`. */
  method RowChain(first: Column?, ghost cs: seq<Column>, fmt: string, render: FloatFormatter)
    returns (line: string, outcome: Outcome, ghost k: nat)
    requires Forward(cs) && first == (if |cs| > 0 then cs[0] else null)
    ensures k == FirstUnwritable(ValuesOf(cs))
    ensures line == RowText(ValuesOf(cs), fmt, render)
    ensures outcome == if k == |cs| then Done else Died(InvalidType(cs[k].name))
  {
    ghost var vs := ValuesOf(cs);
    line := "";
    var isFirst := true;
    var it := first;
    ghost var j := 0;
    while it != null
      invariant j <= |cs| && it == (if j < |cs| then cs[j] else null)
      invariant isFirst <==> j == 0
      invariant forall m :: 0 <= m < j ==> Writable(vs[m])
      invariant line == RowSoFar(vs, fmt, render, j)
      decreases |cs| - j
    {
      NextAt(cs, j);
      var sep := if isFirst then "" else ",";
      isFirst := false;
      var field := CellField(it.value, fmt, render);
      if field.None? {
        RowAbortAt(vs, fmt, render, j);
        return line + sep, Died(InvalidType(it.name)), j;
      }
      line := line + sep + field.value;
      it := it.next;
      j := j + 1;
    }
    RowEndAt(vs, fmt, render, j);
    line := line + "\n";
    outcome := Done;
    k := j;
  }

  /** The switch of sql_table_write_row on one cell: `%lli` for an int,
      the float format for a float, nothing (the writer dies) otherwise. */
  method CellField(v: Value, fmt: string, render: FloatFormatter) returns (field: Option<string>)
    ensures field.Some? <==> Writable(v)
    ensures field.Some? ==> field.value == Field(v, fmt, render)
  {
    match v {
      case IntValue(x) => field := Some(Decimal(x as int));
      case FloatValue(x) => field := Some(render(fmt, x));
      case _ => field := None;
    }
  }

  /** What write_row has printed after the first `j` cells: their fields,
      a comma before every field but the first. */
  function RowSoFar(vs: seq<Value>, fmt: string, render: FloatFormatter, j: nat): (text: string)
    requires j <= |vs|
  {
    if j == 0 then "" else RowSoFar(vs, fmt, render, j - 1) + (if j == 1 then "" else ",") + Field(vs[j - 1], fmt, render)
  }

  /** The printed prefix is the comma-joined fields of the first `j` cells. */
  lemma {:induction false} RowSoFarJoin(vs: seq<Value>, fmt: string, render: FloatFormatter, j: nat)
    requires j <= |vs|
    ensures RowSoFar(vs, fmt, render, j) == Join(Fields(vs[..j], fmt, render))
  {
    if j > 0 {
      RowSoFarJoin(vs, fmt, render, j - 1);
      var fs := Fields(vs[..j], fmt, render);
      assert fs[..j - 1] == Fields(vs[..j - 1], fmt, render);
      JoinStep(fs, j - 1);
    }
  }

  /** The row writer stops at the first unwritable cell, after its separator. */
  lemma RowAbortAt(vs: seq<Value>, fmt: string, render: FloatFormatter, j: nat)
    requires j < |vs| && !Writable(vs[j])
    requires forall m :: 0 <= m < j ==> Writable(vs[m])
    ensures FirstUnwritable(vs) == j
    ensures RowSoFar(vs, fmt, render, j) + (if j == 0 then "" else ",") == RowText(vs, fmt, render)
  {
    FirstUnwritableAt(vs, j);
    RowSoFarJoin(vs, fmt, render, j);
  }

  /** The row writer ends with the newline once every cell is written. */
  lemma RowEndAt(vs: seq<Value>, fmt: string, render: FloatFormatter, j: nat)
    requires j == |vs|
    requires forall m :: 0 <= m < j ==> Writable(vs[m])
    ensures FirstUnwritable(vs) == j
    ensures RowSoFar(vs, fmt, render, j) + "\n" == RowText(vs, fmt, render)
  {
    FirstUnwritableAt(vs, j);
    RowSoFarJoin(vs, fmt, render, j);
    assert vs[..j] == vs;
  }

  /** The first unwritable cell is the one the loop stops at. */
  lemma {:induction false} FirstUnwritableAt(vs: seq<Value>, j: nat)
    requires j <= |vs|
    requires forall m :: 0 <= m < j ==> Writable(vs[m])
    requires j < |vs| ==> !Writable(vs[j])
    ensures FirstUnwritable(vs) == j
  {
    if j > 0 {
      FirstUnwritableAt(vs[1..], j - 1);
    }
  }
}
