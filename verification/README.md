# CarbondataInputFormat, modelled in Dafny

This project models the Flink input format that flinkx uses to read a CarbonData table,
`CarbondataInputFormat`. It covers the four parts of that class whose behaviour can be stated
without CarbonData or Hadoop:

- **Split grouping (`createInputSplits`).** The library's list of `n` splits is cut into
  `k = min(num, n)` contiguous blocks of `g = ceil(n / k)` splits. Each block becomes a
  `CarbonFlinkInputSplit` carrying its group number.
- **Column set-up (`initColumnIndices`).** A counter loop gives every declared column either the
  next consecutive index into the projected record or no index (a null entry), when its name is
  blank. It collects the non-blank names, in order, as the projection sent to the library.
- **The reader over one group (`openInternal`, `createRecordReader`, `reachedEnd`,
  `nextRecordInternal`).** A cursor `pos` walks the group's splits, with one decoder open on
  split `pos`. It skips exhausted and empty splits until a record is available or the splits run
  out. Each record is copied into a row through `columnIndex`.
- **The job configuration (`configure`).** The configuration starts empty and takes every user
  setting. It then forces the HDFS cache off, forces the default file system to `hdfs://ns1`,
  and sets the input directory to the table path.

Java's null and the runtime exceptions the class raises itself are values: `Option` for a
reference that may be null, and `Result`/`Outcome` with a `Fault` for a call that may throw
(`wrappers.dfy`). The library's splits are an opaque sequence for grouping. For reading, each
split is the sequence of records its decoder produces, and the decoder (`SplitCursor.Decoder`)
follows the Hadoop `RecordReader` contract: `nextKeyValue` advances onto the next record, and
`getCurrentValue` returns the record it advanced onto.

Files:

- `wrappers.dfy`: `Option`, `Result`, `Outcome` and the `Fault` values.
- `sequences.dfy`: concatenation of a group's splits (`Flatten`) and the sum of their sizes.
- `split_groups.dfy`: the grouping, as functions, and its partition properties.
- `columns.dfy`: `isBlank`, the column indices, the projection and the row projection.
- `hadoop_conf.dfy`: the configuration map `configure` builds.
- `cursor.dfy`: decoders and the records a cursor has handed out.
- `input_format.dfy`: the class `CarbondataInputFormat` with its fields and imperative methods,
  each proved against the functions above.

Behaviour worth knowing:

- **Trailing groups can be empty.** The loop at line 177 of `CarbondataInputFormat.java` stops
  at the end of the list, so trailing groups are empty whenever blocks of `ceil(n / k)` run out
  early. For example, 5 splits over 4 readers give groups of 2, 2, 1 and 0
  (`SplitGroups.FiveSplitsFourGroups`).
- **Opening an empty group throws.** `openInternal` asks for split `pos` at line 214, so an
  empty group fails there (`CarbondataReader.CarbondataInputFormat.Open` fails with
  `SplitIndexOutOfBounds`).
- **Literal columns are never produced.** The null test at line 107 is on the whole
  `columnIndex` list, which line 103 has already dereferenced, so that branch never runs. A
  blank-named column instead unboxes a null index at line 110 and throws
  (`Columns.BlankColumnThrows`, `Columns.LiteralColumnThrows`).
- **A second `reachedEnd` after `true` is not safe.** `pos` moves one past the end and the
  next `createRecordReader` call fails. The model promises ordered delivery only up to the
  first `true`, and states the failure of the call after it.

## Model

Every source cell is a path relative to the repository root, with line numbers.

| member | source | states |
|---|---|---|
| SplitGroups.SplitNum | flinkx-carbondata/flinkx-carbondata-reader/src/main/java/com/dtstack/flinkx/carbondata/reader/CarbondataInputFormat.java:171 | the number of groups is at most the number of splits and at most `num`, and equals one of them |
| SplitGroups.GroupSize | flinkx-carbondata/flinkx-carbondata-reader/src/main/java/com/dtstack/flinkx/carbondata/reader/CarbondataInputFormat.java:172 | `g` is the ceiling of `n / k`: `k` blocks of `g` cover `n` and `k` blocks of `g - 1` do not; at least 1 when there are splits; with no groups (`n == 0` or `num == 0`) the model gives 0, which matches the source's cast of NaN when `n == 0`; with `num == 0` and splits present the source gets `Integer.MAX_VALUE`, never used |
| SplitGroups.Groups | flinkx-carbondata/flinkx-carbondata-reader/src/main/java/com/dtstack/flinkx/carbondata/reader/CarbondataInputFormat.java:170-173 | there are `min(num, n)` groups; an empty split list gives none |
| SplitGroups.BlockEnd | flinkx-carbondata/flinkx-carbondata-reader/src/main/java/com/dtstack/flinkx/carbondata/reader/CarbondataInputFormat.java:177 | the inner loop, stopping at `g` splits or at the end of the list, ends exactly where the next block starts |
| SplitGroups.GroupsPrefix | flinkx-carbondata/flinkx-carbondata-reader/src/main/java/com/dtstack/flinkx/carbondata/reader/CarbondataInputFormat.java:175-181 | the first `i` groups, concatenated, are the splits before block `i` |
| SplitGroups.ConcatenatedGroupsAreSplits | flinkx-carbondata/flinkx-carbondata-reader/src/main/java/com/dtstack/flinkx/carbondata/reader/CarbondataInputFormat.java:175-181 | concatenating the groups in index order gives back the split list exactly: nothing lost, duplicated or reordered |
| SplitGroups.GroupBounds | flinkx-carbondata/flinkx-carbondata-reader/src/main/java/com/dtstack/flinkx/carbondata/reader/CarbondataInputFormat.java:172-180 | group `i` carries index `i`, holds at most `g` splits, namely those at `[i*g, min((i+1)*g, n))`, and is empty once `i*g` is past the end |
| SplitGroups.OnlyTrailingGroupsEmpty | flinkx-carbondata/flinkx-carbondata-reader/src/main/java/com/dtstack/flinkx/carbondata/reader/CarbondataInputFormat.java:175-181 | once a group is empty every later group is empty: only trailing groups can be empty |
| SplitGroups.FewSplitsOnePerGroup | flinkx-carbondata/flinkx-carbondata-reader/src/main/java/com/dtstack/flinkx/carbondata/reader/CarbondataInputFormat.java:171-181 | with no more splits than requested groups, there is one group per split and group `i` holds split `i` alone |
| SplitGroups.FiveSplitsFourGroups | flinkx-carbondata/flinkx-carbondata-reader/src/main/java/com/dtstack/flinkx/carbondata/reader/CarbondataInputFormat.java:171-181 | 5 splits over 4 readers give groups of 2, 2, 1 and 0 splits, in order |
| CarbondataReader.CarbondataInputFormat.CreateInputSplits | flinkx-carbondata/flinkx-carbondata-reader/src/main/java/com/dtstack/flinkx/carbondata/reader/CarbondataInputFormat.java:169-184 | the nested loops fill a fresh array whose contents are exactly `Groups(splitList, num)`; a negative `num` throws NegativeArraySizeException |
| Columns.NonBlank | flinkx-carbondata/flinkx-carbondata-reader/src/main/java/com/dtstack/flinkx/carbondata/reader/CarbondataInputFormat.java:90-93 | the projection holds no blank name and is no longer than the declared columns |
| Columns.ColumnIndices | flinkx-carbondata/flinkx-carbondata-reader/src/main/java/com/dtstack/flinkx/carbondata/reader/CarbondataInputFormat.java:87-97 | `columnIndex` has one entry per declared column |
| Columns.ColumnIndicesSnoc | flinkx-carbondata/flinkx-carbondata-reader/src/main/java/com/dtstack/flinkx/carbondata/reader/CarbondataInputFormat.java:89-97 | one more loop iteration appends one entry and keeps the earlier ones |
| Columns.NonBlankSnoc | flinkx-carbondata/flinkx-carbondata-reader/src/main/java/com/dtstack/flinkx/carbondata/reader/CarbondataInputFormat.java:89-97 | one more loop iteration appends the name to the projection exactly when it is not blank |
| Columns.NonBlankPrefix | flinkx-carbondata/flinkx-carbondata-reader/src/main/java/com/dtstack/flinkx/carbondata/reader/CarbondataInputFormat.java:89-97 | the projection only grows as the loop proceeds |
| Columns.IndexNamesProjectedColumn | flinkx-carbondata/flinkx-carbondata-reader/src/main/java/com/dtstack/flinkx/carbondata/reader/CarbondataInputFormat.java:90-93 | a present entry `j` of column `i` is a slot of the projection, and that slot holds name `i` |
| Columns.IndicesIncrease | flinkx-carbondata/flinkx-carbondata-reader/src/main/java/com/dtstack/flinkx/carbondata/reader/CarbondataInputFormat.java:88-93 | present entries increase strictly with the column position |
| Columns.EverySlotIndexed | flinkx-carbondata/flinkx-carbondata-reader/src/main/java/com/dtstack/flinkx/carbondata/reader/CarbondataInputFormat.java:88-93 | every projection slot is some column's entry, so the present entries are 0, 1, 2, ... without gaps |
| CarbondataReader.CarbondataInputFormat.InitColumnIndices | flinkx-carbondata/flinkx-carbondata-reader/src/main/java/com/dtstack/flinkx/carbondata/reader/CarbondataInputFormat.java:85-98 | the counter loop leaves `columnIndex` equal to `ColumnIndices(columnName)` (null entry exactly for a blank name) and the projection equal to the non-blank names in order |
| Columns.ProjectMeaning | flinkx-carbondata/flinkx-carbondata-reader/src/main/java/com/dtstack/flinkx/carbondata/reader/CarbondataInputFormat.java:103-112 | a row comes out iff every entry names an index inside the record; it is as wide as `columnIndex` and field `i` is `record[columnIndex[i]]`; otherwise the first column that does not fit throws (null entry or index past the end) |
| Columns.ConfiguredIndicesFit | flinkx-carbondata/flinkx-carbondata-reader/src/main/java/com/dtstack/flinkx/carbondata/reader/CarbondataInputFormat.java:85-112 | for a record as wide as the projection, a configured column can be read iff its name is not blank |
| Columns.ConfiguredProjection | flinkx-carbondata/flinkx-carbondata-reader/src/main/java/com/dtstack/flinkx/carbondata/reader/CarbondataInputFormat.java:85-112 | for a record as wide as the projection, a row comes out iff no declared name is blank, and it is then the record's leading fields |
| Columns.AllNamedIndices | flinkx-carbondata/flinkx-carbondata-reader/src/main/java/com/dtstack/flinkx/carbondata/reader/CarbondataInputFormat.java:88-93 | without blank names the projection is the declared names and column `i` reads index `i` |
| Columns.IdentityProjection | flinkx-carbondata/flinkx-carbondata-reader/src/main/java/com/dtstack/flinkx/carbondata/reader/CarbondataInputFormat.java:106-111 | entries 0, 1, 2, ... copy the record's leading fields unchanged |
| Columns.BlankColumnThrows | flinkx-carbondata/flinkx-carbondata-reader/src/main/java/com/dtstack/flinkx/carbondata/reader/CarbondataInputFormat.java:107-110 | after configuration, the first blank-named column throws on its null entry even when the record is wide enough: the literal branch is never taken |
| Columns.BlankNameFails | flinkx-carbondata/flinkx-carbondata-reader/src/main/java/com/dtstack/flinkx/carbondata/reader/CarbondataInputFormat.java:95-110 | any blank-named column makes the row fail |
| Columns.LiteralColumnThrows | flinkx-carbondata/flinkx-carbondata-reader/src/main/java/com/dtstack/flinkx/carbondata/reader/CarbondataInputFormat.java:107-110 | columns "colA" and a literal column over the record ["a1", "a2"] throw on column 1 instead of yielding the literal |
| Columns.IsWhitespace | flinkx-carbondata/flinkx-carbondata-reader/src/main/java/com/dtstack/flinkx/carbondata/reader/CarbondataInputFormat.java:90 | Java 8's `Character.isWhitespace`, as `StringUtils.isNotBlank` uses it: space, tab, newline and carriage return count as whitespace, the no-break spaces U+00A0, U+2007 and U+202F do not, nor does any character below U+0009 or between U+0021 and U+167F |
| Columns.IsBlank | flinkx-carbondata/flinkx-carbondata-reader/src/main/java/com/dtstack/flinkx/carbondata/reader/CarbondataInputFormat.java:90 | a blank name is empty or whitespace only: the empty name is blank, and a name with an ordinary printable character is not |
| Columns.Project | flinkx-carbondata/flinkx-carbondata-reader/src/main/java/com/dtstack/flinkx/carbondata/reader/CarbondataInputFormat.java:106-111 | the loop's row, when it comes out, is exactly as wide as `columnIndex`; the only exceptions are a null entry and an index past the record's end |
| CarbondataReader.RowOf | flinkx-carbondata/flinkx-carbondata-reader/src/main/java/com/dtstack/flinkx/carbondata/reader/CarbondataInputFormat.java:103-111 | before `configure` the null `columnIndex` throws at line 103; a row that comes out is as wide as `columnIndex.size()` |
| CarbondataReader.CarbondataInputFormat.CreateRecordReader | flinkx-carbondata/flinkx-carbondata-reader/src/main/java/com/dtstack/flinkx/carbondata/reader/CarbondataInputFormat.java:213-218 | a decoder comes out iff `p` is a split of the group; it decodes split `p` and has not yet moved onto a record; otherwise `get(p)` throws SplitIndexOutOfBounds(p) |
| CarbondataReader.CarbondataInputFormat.NextRecord | flinkx-carbondata/flinkx-carbondata-reader/src/main/java/com/dtstack/flinkx/carbondata/reader/CarbondataInputFormat.java:101-117 | the loop builds the row `Project` defines from the decoder's current record; it throws before `configure` (null list) and before `open` (null reader) |
| CarbondataReader.RowsOfAt | flinkx-carbondata/flinkx-carbondata-reader/src/main/java/com/dtstack/flinkx/carbondata/reader/CarbondataInputFormat.java:101-117 | reading a sequence of records gives one row per record, row `i` from record `i` |
| CarbondataReader.RowsOfSnoc | flinkx-carbondata/flinkx-carbondata-reader/src/main/java/com/dtstack/flinkx/carbondata/reader/CarbondataInputFormat.java:101-117 | reading one more record appends its row |
| HadoopConf.JobConf | flinkx-carbondata/flinkx-carbondata-reader/src/main/java/com/dtstack/flinkx/carbondata/reader/CarbondataInputFormat.java:128-151 | among the keys this class sets by name, the configuration holds the user's keys plus the three forced ones; every user entry except the forced keys keeps its value; the cache is disabled, the default file system is `hdfs://ns1` and the input directory is the path |
| CarbondataReader.CarbondataInputFormat.Configure | flinkx-carbondata/flinkx-carbondata-reader/src/main/java/com/dtstack/flinkx/carbondata/reader/CarbondataInputFormat.java:127-166 | the copy loop and the forced settings leave `JobConf(hadoopConfig, path)`, and the columns are set up as `initColumnIndices` does |
| CarbondataReader.CarbondataInputFormat.constructor | flinkx-carbondata/flinkx-carbondata-reader/src/main/java/com/dtstack/flinkx/carbondata/reader/CarbondataInputFormat.java:36-69 | a fresh format holds the builder's settings, no column indices, no reader and `pos == 0` |
| CarbondataReader.CarbondataInputFormat.Open | flinkx-carbondata/flinkx-carbondata-reader/src/main/java/com/dtstack/flinkx/carbondata/reader/CarbondataInputFormat.java:73-83 | the group is stored; the decoder of split `pos` is opened iff `pos` is inside the group, so an empty group throws; with `pos == 0` nothing has been delivered yet |
| CarbondataReader.CarbondataInputFormat.NextKeyValue | flinkx-carbondata/flinkx-carbondata-reader/src/main/java/com/dtstack/flinkx/carbondata/reader/CarbondataInputFormat.java:190 | the decoder advances by one record iff it has one left, and reports whether it did |
| SplitCursor.DeliveredAdvance | flinkx-carbondata/flinkx-carbondata-reader/src/main/java/com/dtstack/flinkx/carbondata/reader/CarbondataInputFormat.java:190 | a decoder that advances hands out the next record of its split |
| SplitCursor.SkipEmptySplits | flinkx-carbondata/flinkx-carbondata-reader/src/main/java/com/dtstack/flinkx/carbondata/reader/CarbondataInputFormat.java:190-197 | moving past empty splits to a fresh decoder hands out nothing |
| SplitCursor.SkipToEnd | flinkx-carbondata/flinkx-carbondata-reader/src/main/java/com/dtstack/flinkx/carbondata/reader/CarbondataInputFormat.java:191-193 | when only empty splits follow an exhausted one, every record of the group has been handed out |
| CarbondataReader.CarbondataInputFormat.ReachedEnd | flinkx-carbondata/flinkx-carbondata-reader/src/main/java/com/dtstack/flinkx/carbondata/reader/CarbondataInputFormat.java:187-202 | `pos` only increases, and only past exhausted or empty splits; false means the decoder now stands on a record and that record is the next record of the group; true means `pos` reached the number of splits and every record had been handed out; a call after true throws on split `pos + 1`; a null reader throws |
| CarbondataReader.CarbondataInputFormat.ReadGroup | flinkx-carbondata/flinkx-carbondata-reader/src/main/java/com/dtstack/flinkx/carbondata/reader/CarbondataInputFormat.java:187-202 | calling `reachedEnd` and `nextRecord` until the first true reads every record of every split, in split order, as many as the split sizes add up to, and one row per record |
| Sequences.FlattenLength | flinkx-carbondata/flinkx-carbondata-reader/src/main/java/com/dtstack/flinkx/carbondata/reader/CarbondataInputFormat.java:187-202 | a group yields as many records as its splits' sizes add up to |
| Sequences.PrefixOfFlatten | flinkx-carbondata/flinkx-carbondata-reader/src/main/java/com/dtstack/flinkx/carbondata/reader/CarbondataInputFormat.java:187-202 | what a cursor has handed out is always a prefix of the group's records in split order |
| SplitCursor.TwoNoneThree | flinkx-carbondata/flinkx-carbondata-reader/src/main/java/com/dtstack/flinkx/carbondata/reader/CarbondataInputFormat.java:187-202 | splits holding 2, 0 and 3 records give 5 records, the empty split contributing none |

## Left out

- Reflection into `FileFactory.configuration` (lines 139-144): it overwrites private state of a library class, and the model has nothing to say about it.
- The library's configuration keys for database, table, projection and filter (lines 148-150, 153-155): their key names and encodings belong to CarbonData. The projection itself is modelled as `projection`.
- `Job.getInstance`, `new CarbonTableInputFormat()` and `format.getSplits(job)` (lines 157-165, 170): the split list is a parameter of `CreateInputSplits`.
- `createTaskContext` (lines 204-211): random job and task identifiers, with no behaviour to state.
- `format.createRecordReader` and `initialize` (lines 215-216): a split's decoder is modelled by the records it produces. `recordReader.close()` at line 195 has no effect in the model.
- `closeInternal` (lines 119-124): it only closes the library's decoder, and it does not null the field, so there is no state change to model.
- `StringUtil.string2col` and `CarbonExpressUtil.eval`: code outside this class. The literal branch that would call `string2col` is dead (see above).
- `InterruptedException` wrapping and I/O failures of the library: plumbing, not modelled.
- Hadoop's `Configuration.set` trims key names and aliases deprecated keys (`fs.default.name` to `fs.defaultFS`). The model treats the configuration as a plain map from the exact key strings.
- Null values in `hadoopConfig` (Hadoop rejects them), a null `columnName` list or null names: the model's strings and lists are never null.
- CarbondataReader.CarbondataInputFormat.Open: assumes `configure` has run. The source dereferences `job` (line 209, inside `createTaskContext`) and `format` (line 215) while opening, so before `configure` it throws a NullPointerException; `job` and `format` are not modelled, so the model's `Open` succeeds there.
- CarbondataReader.CarbondataInputFormat.NextRecord: what CarbonData's decoder returns from `getCurrentValue` before the first `nextKeyValue` is library behaviour. The model reports it as the `NoCurrentValue` fault.
- CarbondataReader.CarbondataInputFormat.ReachedEnd: beyond the null reader, it promises nothing for a cursor that is neither reading a split of its group nor finished. Such a state (an `open` that failed, say) only arises after an exception.
- CarbondataReader.CarbondataInputFormat.CreateInputSplits: `i*groupSize+j` is Java `int` arithmetic. The model uses unbounded integers, so it does not capture overflow for split lists near 2^31 entries. With `num == 0` the source computes `Math.ceil` of a division by zero, but no group is built, so the model's `GroupSize` of 0 there is never used.
- SplitGroups.ConcatenatedGroupsAreSplits: stated for `num >= 1`. With `num == 0` there are no groups, so a non-empty split list is not covered by any group.
- CarbondataReader.CarbondataInputFormat.ReadGroup: this is the host's loop, not a method of the class. It starts from a freshly opened group, because a cursor that has already read records hands out only the rest.
