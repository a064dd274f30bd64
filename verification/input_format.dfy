/**
 * The Flink input format over a CarbonData table: the state it keeps between `configure`,
 * `createInputSplits`, `open`, `reachedEnd` and `nextRecord`. The library's split planner and
 * decoders are outside the model: a group of splits arrives as the records each split's
 * decoder will produce.
 */
module CarbondataReader {
  import opened Wrappers
  import opened Faults
  import opened Sequences
  import opened SplitGroups
  import opened Columns
  import opened HadoopConf
  import opened SplitCursor

  /** The row `nextRecordInternal` produces from `record` under the column indices `columnIndex`, null before `configure`. */
  function RowOf<V>(columnIndex: Option<seq<Option<nat>>>, record: Record<V>): (r: Result<Record<V>, Fault>)
    ensures columnIndex.None? ==> r == Err(NullColumnIndex)
    ensures r.Ok? ==> columnIndex.Some? && |r.value| == |columnIndex.value|
  {
    if columnIndex.None? then Err(NullColumnIndex) else Project(record, columnIndex.value)
  }

  /** The rows the host collects from `records`, one per record, in order. */
  function RowsOf<V>(columnIndex: Option<seq<Option<nat>>>, records: seq<Record<V>>): (rows: seq<Result<Record<V>, Fault>>)
  {
    if records == [] then [] else RowsOf(columnIndex, records[..|records| - 1]) + [RowOf(columnIndex, records[|records| - 1])]
  }

  /** There is one row per record, and row `i` is the projection of record `i`. */
  lemma {:induction false} RowsOfAt<V>(columnIndex: Option<seq<Option<nat>>>, records: seq<Record<V>>)
    ensures |RowsOf(columnIndex, records)| == |records|
    ensures forall i :: 0 <= i < |records| ==> RowsOf(columnIndex, records)[i] == RowOf(columnIndex, records[i])
    decreases |records|
  {
    if records != [] {
      RowsOfAt(columnIndex, records[..|records| - 1]);
    }
  }

  /** One more record adds its row at the end. */
  lemma RowsOfSnoc<V>(columnIndex: Option<seq<Option<nat>>>, records: seq<Record<V>>, record: Record<V>)
    ensures RowsOf(columnIndex, records + [record]) == RowsOf(columnIndex, records) + [RowOf(columnIndex, record)]
  {
    assert (records + [record])[..|records|] == records;
  }

  class CarbondataInputFormat<V> {
    // settings supplied by the builder
    var hadoopConfig: Option<map<string, string>>
    var path: string
    var columnName: seq<string>

    // built by configure
    var jobConf: map<string, string>
    var columnIndex: Option<seq<Option<nat>>>
    var projection: seq<string>

    // the reader's cursor over its group
    var carbonInputSplits: seq<seq<Record<V>>>
    var pos: int
    var recordReader: Option<Decoder<V>>

    constructor (hadoopConfig: Option<map<string, string>>, path: string, columnName: seq<string>)
      ensures this.hadoopConfig == hadoopConfig && this.path == path && this.columnName == columnName
      ensures jobConf == map[] && columnIndex == None && projection == []
      ensures carbonInputSplits == [] && pos == 0 && recordReader == None
    {
      this.hadoopConfig := hadoopConfig;
      this.path := path;
      this.columnName := columnName;
      jobConf := map[];
      columnIndex := None;
      projection := [];
      carbonInputSplits := [];
      pos := 0;
      recordReader := None;
    }

    /** Builds the job configuration and the column indices; nothing else changes. */
    method Configure()
      modifies this`jobConf, this`columnIndex, this`projection
      ensures jobConf == JobConf(hadoopConfig, path)
      ensures columnIndex == Some(ColumnIndices(columnName))
      ensures projection == NonBlank(columnName)
    {
      var conf: map<string, string> := map[];
      if hadoopConfig.Some? {
        var user := hadoopConfig.value;
        var entries := user.Keys;
        while entries != {}
          invariant entries <= user.Keys
          invariant conf == map key | key in user.Keys - entries :: user[key]
          decreases entries
        {
          var key :| key in entries;
          conf := conf[key := user[key]];
          entries := entries - {key};
        }
        assert conf == user;
      }
      conf := conf[DisableCacheKey := DisableCacheValue];
      conf := conf[DefaultFsKey := DefaultFsValue];
      InitColumnIndices();
      conf := conf[InputDirKey := path];
      jobConf := conf;
    }

    /** Gives every declared column its source index, or none when its name is blank, and collects the projection. */
    method InitColumnIndices()
      modifies this`columnIndex, this`projection
      ensures columnIndex == Some(ColumnIndices(columnName))
      ensures projection == NonBlank(columnName)
    {
      projection := [];
      columnIndex := Some([]);
      var k := 0;
      var i := 0;
      while i < |columnName|
        invariant 0 <= i <= |columnName|
        invariant columnIndex == Some(ColumnIndices(columnName[..i]))
        invariant projection == NonBlank(columnName[..i])
        invariant k == |projection|
      {
        ColumnIndicesSnoc(columnName, i);
        NonBlankSnoc(columnName, i);
        if !IsBlank(columnName[i]) {
          columnIndex := Some(columnIndex.value + [Some(k)]);
          projection := projection + [columnName[i]];
          k := k + 1;
        } else {
          columnIndex := Some(columnIndex.value + [None]);
        }
        i := i + 1;
      }
      assert columnName[..i] == columnName;
    }

    /**
     * Cuts the library's split list into the groups of `Groups`, one array slot per group.
     * A negative `num` makes the array size negative.
     */
    method CreateInputSplits<S>(splitList: seq<S>, num: int) returns (r: Result<array<CarbonFlinkInputSplit<S>>, Fault>)
      ensures num < 0 <==> r.Err?
      ensures r.Err? ==> r.error == NegativeArraySize(num)
      ensures r.Ok? ==> fresh(r.value) && r.value[..] == Groups(splitList, num)
    {
      if num < 0 {
        // splitNum is num itself, as no list is shorter than a negative number
        return Err(NegativeArraySize(num));
      }
      var n := |splitList|;
      var splitNum := SplitNum(n, num);
      var groupSize := GroupSize(n, splitNum);
      var ret := new CarbonFlinkInputSplit<S>[splitNum];
      var i := 0;
      while i < splitNum
        invariant 0 <= i <= splitNum
        invariant forall m :: 0 <= m < i ==> ret[m] == Group(splitList, groupSize, m)
      {
        var lo := i * groupSize;
        var splits: seq<S> := [];
        var j := 0;
        while j < groupSize && lo + j < n
          invariant 0 <= j <= groupSize
          invariant j == 0 ==> splits == []
          invariant j > 0 ==> lo + j <= n && splits == splitList[lo..lo + j]
        {
          splits := splits + [splitList[lo + j]];
          j := j + 1;
        }
        BlockEnd(n, groupSize, i, j);
        ret[i] := CarbonFlinkInputSplit(splits, i);
        i := i + 1;
      }
      assert ret[..] == Groups(splitList, num);
      return Ok(ret);
    }

    /** `createRecordReader(p)`: a fresh decoder over split `p` of the group. */
    function CreateRecordReader(p: int): (r: Result<Decoder<V>, Fault>)
      reads this
      ensures r.Ok? <==> 0 <= p < |carbonInputSplits|
      ensures r.Ok? ==> r.value.records == carbonInputSplits[p] && !r.value.HasCurrent()
      ensures r.Err? ==> r.error == SplitIndexOutOfBounds(p)
    {
      if 0 <= p < |carbonInputSplits| then Ok(Decoder(carbonInputSplits[p], 0))
      else Err(SplitIndexOutOfBounds(p))
    }

    /** The cursor stands on split `pos` of the group, with that split's decoder open. */
    ghost predicate Reading()
      reads this`carbonInputSplits, this`pos, this`recordReader
    {
      && recordReader.Some?
      && 0 <= pos < |carbonInputSplits|
      && recordReader.value.records == carbonInputSplits[pos]
      && recordReader.value.consumed <= |carbonInputSplits[pos]|
    }

    /** The state `reachedEnd` leaves when it returns true: past the last split, its decoder exhausted. */
    ghost predicate Finished()
      reads this`carbonInputSplits, this`pos, this`recordReader
    {
      && recordReader.Some?
      && 0 < pos == |carbonInputSplits|
      && recordReader.value.records == carbonInputSplits[pos - 1]
      && recordReader.value.consumed == |carbonInputSplits[pos - 1]|
    }

    /** The records the decoders have handed out so far, in order: always a prefix of the group's records. */
    ghost function Delivered(): seq<Record<V>>
      reads this`carbonInputSplits, this`pos, this`recordReader
      requires Reading() || Finished()
    {
      if pos < |carbonInputSplits| then DeliveredAt(carbonInputSplits, pos, recordReader.value.consumed)
      else Flatten(carbonInputSplits)
    }

    /** The host has read `records`, and the decoder stands on the record after them. */
    ghost predicate Pending(records: seq<Record<V>>)
      reads this`carbonInputSplits, this`pos, this`recordReader
    {
      && Reading() && recordReader.value.HasCurrent()
      && Delivered() == records + [recordReader.value.CurrentValue()]
    }

    /** `openInternal`: takes the group and opens the decoder of split `pos` (0 on a fresh reader). */
    method Open(inputSplit: CarbonFlinkInputSplit<seq<Record<V>>>) returns (r: Outcome<Fault>)
      modifies this`carbonInputSplits, this`recordReader
      ensures carbonInputSplits == inputSplit.splits
      ensures r.Pass? <==> 0 <= pos < |inputSplit.splits|
      ensures r.Pass? ==> recordReader == Some(Decoder(inputSplit.splits[pos], 0)) && Reading()
      ensures r.Pass? && pos == 0 ==> Delivered() == []
      ensures r.Fail? ==> r.error == SplitIndexOutOfBounds(pos) && recordReader == old(recordReader)
    {
      carbonInputSplits := inputSplit.splits;
      var created := CreateRecordReader(pos);
      if created.Err? {
        return Fail(created.error);
      }
      recordReader := Some(created.value);
      return Pass;
    }

    /** `recordReader.nextKeyValue()`: moves onto the next record if there is one; an exhausted decoder stays exhausted. */
    method NextKeyValue() returns (more: bool)
      requires recordReader.Some?
      modifies this`recordReader
      ensures more <==> old(recordReader.value.consumed) < |old(recordReader.value.records)|
      ensures recordReader == Some(old(recordReader.value).(consumed := old(recordReader.value.consumed) + if more then 1 else 0))
    {
      var d := recordReader.value;
      more := d.consumed < |d.records|;
      if more {
        recordReader := Some(d.(consumed := d.consumed + 1));
      }
    }

    /**
     * `reachedEnd`: advances to the next record, skipping exhausted decoders, and returns true
     * when the group's splits run out. From a reading state it only moves forward, delivers
     * the next record of the group in order, and returns true exactly when every record has
     * already been delivered. Called again after true, it fails opening split `pos + 1`.
     */
    method ReachedEnd() returns (r: Result<bool, Fault>)
      modifies this`pos, this`recordReader
      ensures old(recordReader).None? ==> r == Err(NullRecordReader) && pos == old(pos) && recordReader == old(recordReader)
      ensures pos >= old(pos)
      ensures old(Reading()) ==> r.Ok?
      ensures old(Reading()) && r == Ok(false) ==>
        && Reading() && recordReader.value.HasCurrent()
        && Delivered() == old(Delivered()) + [recordReader.value.CurrentValue()]
      ensures old(Reading()) && r == Ok(true) ==> Finished() && old(Delivered()) == Flatten(carbonInputSplits)
      ensures old(Reading()) ==> pos <= |carbonInputSplits| && EmptyBetween(carbonInputSplits, old(pos), pos)
      ensures old(Finished()) ==> r == Err(SplitIndexOutOfBounds(old(pos) + 1))
    {
      if recordReader.None? {
        return Err(NullRecordReader);
      }
      ghost var wasReading, wasFinished := Reading(), Finished();
      ghost var splits, pos0, consumed0 := carbonInputSplits, pos, recordReader.value.consumed;
      var more := NextKeyValue();
      while !more
        invariant carbonInputSplits == splits
        invariant recordReader.Some? && pos >= pos0
        invariant wasFinished ==> pos == pos0 == |splits| && !more
        invariant wasReading ==> Reading() && EmptyBetween(splits, pos0, pos)
        invariant wasReading && (pos > pos0 || !more) ==> consumed0 == |splits[pos0]|
        invariant wasReading && !more ==> recordReader.value.consumed == |splits[pos]|
        invariant wasReading && !more && pos > pos0 ==> splits[pos] == []
        invariant wasReading && more ==> recordReader.value.consumed == if pos == pos0 then consumed0 + 1 else 1
        decreases |splits| - pos
      {
        pos := pos + 1;
        if pos == |carbonInputSplits| {
          if wasReading {
            SkipToEnd(splits, pos0);
          }
          return Ok(true);
        }
        // recordReader.close() releases the exhausted decoder inside the library
        var created := CreateRecordReader(pos);
        if created.Err? {
          return Err(created.error);
        }
        recordReader := Some(created.value);
        more := NextKeyValue();
      }
      if wasReading {
        if pos == pos0 {
          DeliveredAdvance(splits, pos, consumed0);
        } else {
          SkipEmptySplits(splits, pos0, pos);
          DeliveredAdvance(splits, pos, 0);
        }
      }
      return Ok(false);
    }

    /**
     * `nextRecordInternal`: a row as wide as `columnIndex`, field `i` copied from
     * `record[columnIndex[i]]` of the decoder's current record.
     */
    method NextRecord() returns (row: Result<Record<V>, Fault>)
      ensures columnIndex.None? ==> row == Err(NullColumnIndex)
      ensures columnIndex.Some? && recordReader.None? ==> row == Err(NullRecordReader)
      ensures columnIndex.Some? && recordReader.Some? && !recordReader.value.HasCurrent() ==> row == Err(NoCurrentValue)
      ensures recordReader.Some? && recordReader.value.HasCurrent() ==>
        row == RowOf(columnIndex, recordReader.value.CurrentValue())
    {
      if columnIndex.None? {
        return Err(NullColumnIndex);
      }
      var indices := columnIndex.value;
      if recordReader.None? {
        return Err(NullRecordReader);
      }
      if !recordReader.value.HasCurrent() {
        return Err(NoCurrentValue);
      }
      var record := recordReader.value.CurrentValue();
      var fields: seq<V> := [];
      var i := 0;
      while i < |indices|
        invariant 0 <= i <= |indices|
        invariant Project(record, indices[..i]) == Ok(fields)
      {
        // The literal branch tests the whole list against null, and the list is not null
        // here, so every column is read from the record.
        assert indices[..i + 1][..i] == indices[..i];
        var entry := indices[i];
        if !Fits(record, entry) {
          ProjectMeaning(record, indices);
          ProjectMeaning(record, indices[..i]);
          ghost var r := Project(record, indices);
          assert r.Err? && r.error.column == i;
          return Err(Misfit(i, entry));
        }
        fields := fields + [record[entry.value]];
        i := i + 1;
      }
      assert indices[..i] == indices;
      return Ok(fields);
    }

    /**
     * The host's pull loop over one opened group (`while !reachedEnd() { nextRecord() }`).
     * `records` are the decoded values `nextRecord` reads, `rows` what it returns: every record
     * of every split of the group, in split order, as many as the splits hold together, and
     * one row per record.
     */
    method ReadGroup() returns (records: seq<Record<V>>, rows: seq<Result<Record<V>, Fault>>)
      requires Reading() && Delivered() == []
      modifies this`pos, this`recordReader
      ensures Finished()
      ensures records == Flatten(carbonInputSplits)
      ensures |records| == SumLengths(carbonInputSplits)
      ensures rows == RowsOf(columnIndex, records)
    {
      ghost var all := Flatten(carbonInputSplits);
      records, rows := [], [];
      var end := ReachedEnd();
      while !end.value
        invariant end.Ok?
        invariant !end.value ==> Pending(records)
        invariant end.value ==> Finished() && records == all
        invariant records <= all
        invariant rows == RowsOf(columnIndex, records)
        decreases |all| - |records|
      {
        var row := NextRecord();
        RowsOfSnoc(columnIndex, records, recordReader.value.CurrentValue());
        rows := rows + [row];
        PrefixOfFlatten(carbonInputSplits, pos, recordReader.value.consumed);
        records := records + [recordReader.value.CurrentValue()];
        end := ReachedEnd();
      }
      FlattenLength(carbonInputSplits);
    }
  }
}
