# sqldump2csv core, modelled in Dafny

sqldump2csv turns an SQL dump into one CSV file per table. Its core is a
small object model written in C:

- a **column** (`sql_column.c`) is a named cell holding a tagged value
  (`none`, `int`, `float`, `string`). It is also a node of a doubly linked
  sibling chain.
- a **table** (`sql_table.c`) owns a chain of columns and an output stream.
  The stream is opened lazily under a file-naming and header policy. The
  table writes a header line, a type line and one line per data row.
- the **context** (`sql_context.c`) is the session. It holds the options,
  the registry of tables in the order they were added, the lock on the
  table whose row is being filled, and the cursor on the column that the
  next value goes to.

The Dafny modules follow those files:

| module | file | models |
|---|---|---|
| `Sql` | `sql.dfy` | shared vocabulary of `sql.h`: NULL-able pointers (`Option`), `long long` and `int` widths, the opaque `long double`, the fatal conditions of `sql_die` (`Fatal`, `Outcome`) |
| `CsvText` | `csv_text.dfy` | comma-joined lines and `%lli` decimals, with the reader's view (split at commas, parse decimals) used as round-trip partners |
| `SqlColumn` | `sql_column.dfy` | `Value`, the `Column` class and its chain operations |
| `SqlTable` | `sql_table.dfy` | the file-name and header policy, the header, type and row lines, the `Table` class and its writer and free loops |
| `SqlContext` | `sql_context.dfy` | the `Context` class, the table search, the row-write step and the destroy loop |

How the model represents the C program:

- **Linked chains.** Column and table chains use real `prev`/`next`
  fields. A ghost sequence lists the nodes in order, and
  `ChainValid`/`TableChainValid` tie that sequence to the links. A table
  keeps its column chain in the ghost field `columns`; the context keeps
  its table chain in the ghost field `tables`.
- **Output stream.** A stream is represented by the text the file holds
  through it. `out == None` stands for a NULL `FILE*`.
- **Fatal errors.** `sql_die` aborts the process. The model returns
  `Died(reason)` instead, and states the state at the moment of the abort.
  `sql_check_nullptr` is an `assert`, so it becomes a `requires`.
- **Heap strings.** Every `sql_xstrdup` and `sql_xfree` is logged in ghost
  multisets `duped` and `freed`. `Owns()` says that everything obtained is
  either still held or has been freed exactly once: no leak and no double
  free.
- **File system and float formatting.** The file system is the value
  `FileEnv`: the existing content, whether `access(W_OK)` grants writing,
  whether the open succeeds, and whether the build has zlib. Float
  formatting is a caller-supplied function `render(fmt, x)`.

The source reads `q->out_dir` and `q->float_fmt` in `sql_table_open`, and
writes `p->float_fmt`. None of these fields is declared in the structs of
`sql.h` (sql.h:110-122 and sql.h:139-155), and `sql_context_init` does not
set them. The model gives `Context` the fields `outDir` (None after init)
and `floatFmt` ("" after init), and gives `Table` the field `floatFmt`.

`write_row` writes only `int` and `float` cells. A `none` or `string`
cell aborts the row, after the fields before it and, when there are any,
the comma after them have been printed. The model keeps this behaviour.
After an abort, the model states what the stream's text holds; what
reaches the file depends on whether `abort()` flushes the stdio buffers,
which the model does not decide.

## Model

| member | source | states |
|---|---|---|
| CsvText.SplitJoin | sql_table.c:169-178 | the comma-joined fields that the writer loops print split back into exactly those fields, when no field holds a comma |
| CsvText.Decimal | sql_table.c:235 | the `%lli` text of an integer is non-empty and holds no comma and no newline, so it is always one CSV field |
| CsvText.DecimalRoundTrip | sql_table.c:234-236 | parsing the `%lli` text of any integer, negative ones included, gives the integer back |
| SqlColumn.InsertedKeepsOrder | sql_column.c:156-176 | inserting a node puts it at the chosen index, grows the chain by one, and removing it again gives back the original order |
| SqlColumn.ChainLinksAgree | sql_column.c:156-189 | in a whole chain every `next` is matched by the reverse `prev` and no link leaves the chain |
| SqlColumn.Column.constructor | sql_column.c:26-34 | a new column has no name, type `none` and no siblings, and owns no text |
| SqlColumn.Column.SetName | sql_column.c:46-56 | the old name is freed and a copy of the new one (NULL for NULL) is taken; ownership stays balanced |
| SqlColumn.Column.SetNone | sql_column.c:58-77 | a string payload is freed, and only a string payload; the type becomes `none`; a second call frees nothing more |
| SqlColumn.Column.SetInt | sql_column.c:79-100 | the value becomes the integer; a string payload held before is freed first and nothing else is freed |
| SqlColumn.Column.SetFloat | sql_column.c:102-123 | the value becomes the float; a string payload held before is freed first and nothing else is freed |
| SqlColumn.Column.SetString | sql_column.c:124-145 | a held string payload is freed first, then a copy of the text (NULL for NULL) becomes the payload; ownership stays balanced |
| SqlColumn.Column.TakeString | sql_column.c:143-144 | with no string payload held, the copied text becomes the payload and is logged as obtained |
| SqlColumn.Column.AddSibling | sql_column.c:147-177 | the new node lands at index clamp(i + pos + 1, 0, n) of the chain; every other node keeps its order and the chain stays whole |
| SqlColumn.Column.LinkAfter | sql_column.c:156-165 | the chain becomes ..., this node, q, old next, ... and stays whole |
| SqlColumn.Column.LinkBefore | sql_column.c:166-176 | the chain becomes ..., old prev, q, this node, ... and stays whole |
| SqlColumn.Column.DelSibling | sql_column.c:179-190 | the neighbours are linked past the node, so the rest is the chain without it; the node's own links are left as they were |
| SqlColumn.Column.FirstSibling | sql_column.c:192-199 | from any node the walk returns the chain's first node, the one without a `prev` |
| SqlColumn.Column.LastSibling | sql_column.c:201-208 | from any node the walk returns the chain's last node, the one without a `next` |
| SqlColumn.Column.Free | sql_column.c:36-44 | name and string payload are freed, the node is unlinked from its chain, and everything it obtained has been freed exactly once |
| SqlTable.FileNameShape | sql_table.c:103-108 | the file name ends in `.csv.gz` when compressing and in `.csv` otherwise, and starts with `dir/` when an output directory is set |
| SqlTable.FileNameCompressed | sql_table.c:105-107 | compression changes the file name only by the `.gz` suffix |
| SqlTable.FileNameInDir | sql_table.c:104-108 | an output directory changes the file name only by the `dir/` prefix |
| SqlTable.AppendSuppressesHeader | sql_table.c:112-117 | appending to a writable file that exists writes no header and no type line, so the file keeps exactly its old content before the new rows |
| SqlTable.HeaderRoundTrip | sql_table.c:161-179 | the header line ends in a newline, and cut at its commas it gives back the column names in order |
| SqlTable.TypesRoundTrip | sql_table.c:181-218 | the type line starts with `# `, ends in a newline, and splits into one `name:type` field per column with the literal type token |
| SqlTable.FirstUnwritableIsFirst | sql_table.c:233-243 | every cell before the first unwritable one is an int or a float, and the one it names is neither |
| SqlTable.RowOutcomeWritable | sql_table.c:233-243 | write_row ends normally if and only if every cell is an int or a float; otherwise it dies naming a column whose cell is neither |
| SqlTable.RowRoundTrip | sql_table.c:219-247 | a complete row is one line, splits into exactly one field per column, and each int field parses back to the cell's value |
| SqlTable.RowAbortLeavesPartialLine | sql_table.c:227-243 | a row that aborts leaves a partial line with no newline |
| SqlTable.Table.constructor | sql_table.c:31-44 | a new table is closed, unnamed, without columns, siblings or rows, and owns no text |
| SqlTable.Table.SetName | sql_table.c:66-77 | the old name is freed and a copy of the new one is taken; ownership stays balanced |
| SqlTable.Table.SetFile | sql_table.c:79-90 | the old file name is freed and a copy of the new one is taken; ownership stays balanced |
| SqlTable.Table.AddColumn | sql.h:133 | the column is appended at the tail; the chain stays whole and its ends stay `first_column`/`last_column` |
| SqlTable.Table.Open | sql_table.c:92-159 | an open table is left alone; otherwise the file name is stored, the float format copied, and a missing zlib or a failed open is fatal with the table still closed; on success the rows restart at 0 and the stream holds the kept or truncated content, then the allowed header and type lines |
| SqlTable.Table.OpenFile | sql_table.c:103-159 | the same, for a table that is still closed |
| SqlTable.Table.StoreFile | sql_table.c:103-109 | the built file name is stored; ownership stays balanced |
| SqlTable.Table.OpenStream | sql_table.c:116-158 | mode "a" keeps an existing file and mode "w" truncates; no zlib or a failed open is fatal and leaves the stream NULL |
| SqlTable.Table.WritePrologue | sql_table.c:150-158 | the header line, then the type line, each only when it is enabled and allowed, are appended to the stream |
| SqlTable.Table.WriteHeader | sql_table.c:161-179 | the stream grows by exactly the header line |
| SqlTable.Table.HeaderText | sql_table.c:166-178 | the printed line is the column names in chain order, separated by commas, then a newline |
| SqlTable.HeaderChain | sql_table.c:166-178 | the loop prints the names of the whole chain, separated by commas, then the newline |
| SqlTable.Table.WriteTypes | sql_table.c:181-218 | the stream grows by exactly the type line |
| SqlTable.Table.TypesText | sql_table.c:186-217 | the printed line is `# ` and the `name:type` pairs separated by commas, then a newline |
| SqlTable.TypesChain | sql_table.c:186-217 | the loop prints `# ` before the first pair and a comma before every other, then the newline |
| SqlTable.TypesLineSoFar | sql_table.c:186-217 | the type line is what the loop prints for every column, followed by the newline |
| SqlTable.TypesSoFarJoin | sql_table.c:189-197 | after at least one column, the printed text is the marker followed by the comma-joined pairs |
| SqlTable.Table.WriteRow | sql_table.c:219-247 | the stream grows by the row text, and the row ends as RowOutcome says |
| SqlTable.Table.FormatRow | sql_table.c:224-246 | the printed text and the outcome are those of the row specification for the table's cells and float format |
| SqlTable.RowChain | sql_table.c:224-246 | the loop stops at the first unwritable cell, with the fields before it and their separator printed; otherwise it prints every field and the newline |
| SqlTable.CellField | sql_table.c:233-243 | a cell gives a field if and only if it is an int or a float; the field is `%lli` or the float format |
| SqlTable.RowSoFarJoin | sql_table.c:227-239 | after `j` cells the printed text is the comma-joined fields of those cells |
| SqlTable.RowAbortAt | sql_table.c:228-242 | stopping at an unwritable cell prints exactly the row specification's partial line |
| SqlTable.RowEndAt | sql_table.c:244-246 | finishing every cell and the newline prints exactly the row specification's line |
| SqlTable.FirstUnwritableAt | sql_table.c:227-243 | the cell where the loop stops is the first unwritable one |
| SqlTable.Table.Close | sql_table.c:249-260 | afterwards the stream is NULL, so a second close changes nothing |
| SqlTable.Table.DelSibling | sql_table.c:262-273 | the neighbours are linked past the table, so the rest is the chain without it; its own links are left as they were |
| SqlTable.Table.Free | sql_table.c:46-64 | the table is closed, its name and file name are freed with ownership balanced, it is unlinked from its chain, and every column has lost its name and value |
| SqlTable.Table.Release | sql_table.c:49-51 | the stream is closed, name and file name are freed, and everything the table obtained has been freed exactly once |
| SqlTable.Table.Detach | sql_table.c:52-60 | the table is unlinked from its chain, then every column is freed |
| SqlTable.Table.FreeColumns | sql_table.c:54-60 | every column of the chain has lost its name and value |
| SqlTable.FreeChain | sql_table.c:55-60 | the loop frees every column from first to last, even though each free unlinks the column |
| SqlTable.FreeHead | sql_table.c:56-59 | one turn: the successor is saved, the head is freed, and what remains is a whole chain of unfreed columns |
| SqlContext.FirstNamedIsFirst | sql_context.c:92-101 | the search stops at the first table with the name and passes none before it |
| SqlContext.FirstNamedAt | sql_context.c:61-67 | a search that passed `j` tables without a match and stops at `j` has found the first table with the name |
| SqlContext.FirstNamedUnique | sql_context.c:92-101 | with unique names the search finds the one table that carries the name |
| SqlContext.FirstNamedAppend | sql_context.c:69-80 | after a table is appended under a new name, the search finds it under that name and finds the other names where they were |
| SqlContext.FindTable | sql_context.c:61-67 | the loop returns the first table with the name, or NULL when there is none |
| SqlContext.Context.constructor | sql_context.c:26-40 | every option is off except auto_close; there are no tables, no lock, no cursor, no source file and no output directory, and the float format is empty |
| SqlContext.Context.AddTable | sql_context.c:56-81 | a name already registered is fatal and changes nothing; otherwise the table is appended after the last one and the registry stays a whole chain of uniquely named tables |
| SqlContext.Context.Append | sql_context.c:69-80 | the table is linked after the last one, `first_table` is set when the chain was empty, and the order of the others is kept |
| SqlContext.Context.LockTable | sql_context.c:83-104 | fatal while a table is locked, naming the locked table, and fatal when no table has the name; otherwise the first table with the name is locked and the cursor is on its first column |
| SqlContext.Context.UnlockTable | sql_context.c:106-112 | no table is locked and no column is current afterwards, whatever held before |
| SqlContext.Context.GetCurrentColumn | sql_context.c:131-135 | returns the cursor, which is a column of the locked table whenever it is set |
| SqlContext.Context.NextColumn | sql_context.c:137-144 | the cursor moves to the next column of the locked table and to NULL after the last; a NULL cursor stays NULL |
| SqlContext.Context.WriteCurrentRow | sql_context.c:114-129 | the locked table is opened if closed, the row is appended, the cursor returns to the first column and the row count grows by one; a fatal open or row leaves the cursor where it was |
| SqlContext.WriteTableRow | sql_context.c:119-128 | the table part of the row write follows the row-write specification `WriteStep` |
| SqlContext.WriteOpened | sql_context.c:125-128 | on an open table the row is appended and counted only when it is whole |
| SqlContext.WriteStepAppends | sql_context.c:114-129 | writing a row only appends; the table stays closed only after a fatal open; on an open stream the count grows by one exactly when the row is whole, counting from 0 after an open |
| SqlContext.Context.Destroy | sql_context.c:42-54 | the lock is released and every registered table is closed with its name and file name freed |
| SqlContext.FreeTables | sql_context.c:47-53 | the loop frees every table of the chain from first to last |
| SqlContext.FreeTurn | sql_context.c:48-52 | one turn: the table is freed, the tables freed before stay freed, and every table keeps its columns |
| SqlContext.FreeAt | sql_context.c:49-52 | the successor is saved before the free; after it, the tables still to come form a whole chain, each with a whole column chain |
| SqlContext.Separated | sql_context.c:47-53 | no column of a later table is a column of the table being freed |

## Left out

- Logging (`sql_debug`, `sql_warning`, `sql_error`) is not modelled; it has no effect on state.
- The gzip transport (`gzopen`, `fopencookie`) is modelled only by whether it opens. Compressed and plain streams carry the same text.
- Real I/O is the `FileEnv` value and the `render` float formatter. The `access` check, `fopen` and `printf` of a `long double` are not modelled beyond them.
- `snprintf` truncation of file names longer than `2 * PATH_MAX` is not modelled.
- The row counter is a `nat`. The wrap-around of `size_t` is not modelled.
- `sql_xmalloc` failing (out of memory) is not modelled.
- `sql_die` is a returned `Died` value. The real process ends there, so nothing after a `Died` is meaningful.
- `sql_context_init` leaves `out_dir` and `float_fmt` unset (they are not in `struct sql_context`). The model sets `None` and "".
- `sql_table_add_column` is only declared in `sql.h`; its body is not part of this model. `SqlTable.Table.AddColumn` mirrors the tail append of `sql_context_add_table`.
- SqlContext.Context.AddTable: requires NULL links only for a table whose name is not registered yet. The source does not check this, and linking such a table would corrupt the chain. A table that is already registered, including one passed a second time, is caught by the name loop (sql_context.c:61-66) and dies with `DuplicateTable` before any link is touched.
- SqlContext.Context.Destroy: states that every table is closed and its name and file name are freed. It does not restate the column freeing or the ownership balance, which `SqlTable.Table.Free` states per table. The owner map is a ghost argument that records which table owns each column.
- SqlContext.Context.Destroy: `first_table` and `last_table` are left pointing at freed tables, as in the source; the model does not state anything about them afterwards.
- SqlContext.Context.WriteCurrentRow: does not restate the string ownership balance of the open. `SqlTable.Table.Open` states it. Only the cursor half of `Valid()` is re-established; the registry half is kept because nothing it reads is modified.
- SqlTable.Table.Free: states that every column has lost its name and value. It does not restate the per-column ownership balance, which `SqlColumn.Column.Free` states.
- SqlTable.Table.OpenFile: does not ensure `Valid()`. `SqlTable.Table.Open` gets it because the column chain is not modified.
- The header, type and row writers assemble the line and append it in one step. The source prints it piece by piece; the text that reaches the stream is the same, including the partial line of an aborted row.
- A column's `type` outside the four tags (the `default:` branches that call `sql_die_invalid_type` in the setters) cannot occur: `Value` has exactly four cases.
- SqlColumn.Column.SetName, SqlColumn.Column.SetString, SqlTable.Table.SetName, SqlTable.Table.SetFile: strings are passed by value, so the model does not capture aliasing. The source frees the old text before it copies the argument (sql_column.c:49-55, sql_column.c:136-144, sql_table.c:70-76, sql_table.c:83-89). A call that passes the object's own field therefore reads freed memory, and the model does not show this.
- SqlColumn.Column.Free, SqlTable.Table.Free: they are methods on an existing object, so the NULL argument is not modelled. `sql_column_free(NULL)` and `sql_table_free(NULL)` do nothing (sql_column.c:38, sql_table.c:48).
- `strcmp` and `%s` on a NULL string are undefined in C. The model requires the table name where the source compares or prints it, and requires `source_file` in `SqlTable.Table.Open`, `SqlTable.Table.OpenFile` and `SqlContext.Context.WriteCurrentRow`, because the file name format prints it with `%s` (sql_table.c:105, sql_table.c:107) while `sql_context_init` leaves it NULL (sql_context.c:38).
