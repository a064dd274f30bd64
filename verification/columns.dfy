/**
 * The column set-up of `initColumnIndices` and the row projection of `nextRecordInternal`.
 * A declared column with a blank name gets no source index (a null entry); every other
 * column gets the next consecutive index into the projected record, and its name goes
 * into the projection handed to the library.
 */
module Columns {
  import opened Wrappers
  import opened Faults

  /**
   * Java's `Character.isWhitespace` (Java 8, Unicode 6.2): the space, line and paragraph
   * separators other than the no-break spaces U+00A0, U+2007 and U+202F, and the controls
   * U+0009..U+000D and U+001C..U+001F.
   */
  predicate IsWhitespace(c: char): (w: bool)
    ensures c == ' ' || c == '\t' || c == '\n' || c == '\r' ==> w
    ensures c as int == 0x00A0 || c as int == 0x2007 || c as int == 0x202F ==> !w
    ensures c as int < 0x09 || 0x20 < c as int < 0x1680 ==> !w
  {
    var u := c as int;
    || 0x09 <= u <= 0x0D
    || 0x1C <= u <= 0x20
    || u == 0x1680 || u == 0x180E
    || 0x2000 <= u <= 0x2006
    || 0x2008 <= u <= 0x200A
    || u == 0x2028 || u == 0x2029 || u == 0x205F || u == 0x3000
  }

  /** `StringUtils.isBlank`: empty or whitespace only. */
  predicate IsBlank(name: string): (blank: bool)
    ensures name == [] ==> blank
    ensures forall i :: 0 <= i < |name| && (0x20 < name[i] as int < 0x1680) ==> !blank
  {
    forall i :: 0 <= i < |name| ==> IsWhitespace(name[i])
  }

  /** The non-blank names, in their declared order: the projection `initColumnIndices` builds. */
  function NonBlank(names: seq<string>): (r: seq<string>)
    ensures |r| <= |names|
    ensures forall j :: 0 <= j < |r| ==> !IsBlank(r[j])
  {
    if names == [] then []
    else
      var last := names[|names| - 1];
      NonBlank(names[..|names| - 1]) + if IsBlank(last) then [] else [last]
  }

  /** The `columnIndex` list: no index for a blank name, else the number of non-blank names before it. */
  function ColumnIndices(names: seq<string>): (r: seq<Option<nat>>)
    ensures |r| == |names|
  {
    seq(|names|, i requires 0 <= i < |names| => if IsBlank(names[i]) then None else Some(|NonBlank(names[..i])|))
  }

  /** One more name adds one entry at the end of `columnIndex` and keeps the earlier ones. */
  lemma ColumnIndicesSnoc(names: seq<string>, i: nat)
    requires i < |names|
    ensures ColumnIndices(names[..i + 1]) == ColumnIndices(names[..i]) + [ColumnIndices(names)[i]]
  {
    var longer, shorter := ColumnIndices(names[..i + 1]), ColumnIndices(names[..i]);
    forall j | 0 <= j < i + 1
      ensures longer[j] == (shorter + [ColumnIndices(names)[i]])[j]
    {
      assert names[..i + 1][..j] == names[..j];
      if j < i {
        assert names[..i][..j] == names[..j];
      }
    }
  }

  /** One more name extends the projection by that name when it is not blank. */
  lemma NonBlankSnoc(names: seq<string>, i: nat)
    requires i < |names|
    ensures NonBlank(names[..i + 1]) == NonBlank(names[..i]) + if IsBlank(names[i]) then [] else [names[i]]
  {
    assert names[..i + 1][..i] == names[..i];
  }

  /** The projection of a shorter prefix of the names is a prefix of the projection of a longer one. */
  lemma {:induction false} NonBlankPrefix(names: seq<string>, i: nat, j: nat)
    requires i <= j <= |names|
    ensures NonBlank(names[..i]) <= NonBlank(names[..j])
    decreases j - i
  {
    if i < j {
      NonBlankPrefix(names, i, j - 1);
      NonBlankSnoc(names, j - 1);
    }
  }

  /** A present index points at the projection slot that holds the column's own name. */
  lemma IndexNamesProjectedColumn(names: seq<string>, i: nat)
    requires i < |names| && ColumnIndices(names)[i].Some?
    ensures ColumnIndices(names)[i].value < |NonBlank(names)|
    ensures NonBlank(names)[ColumnIndices(names)[i].value] == names[i]
  {
    NonBlankSnoc(names, i);
    NonBlankPrefix(names, i + 1, |names|);
    assert names[..|names|] == names;
  }

  /** Present indices increase strictly with the column position. */
  lemma IndicesIncrease(names: seq<string>, i: nat, j: nat)
    requires i < j < |names| && ColumnIndices(names)[i].Some? && ColumnIndices(names)[j].Some?
    ensures ColumnIndices(names)[i].value < ColumnIndices(names)[j].value
  {
    NonBlankSnoc(names, i);
    NonBlankPrefix(names, i + 1, j);
  }

  /** Every projection slot is the index of some column, so the indices are 0, 1, 2, ... with no gap. */
  lemma {:induction false} EverySlotIndexed(names: seq<string>, slot: nat)
    requires slot < |NonBlank(names)|
    ensures exists i :: 0 <= i < |names| && ColumnIndices(names)[i] == Some(slot)
    decreases |names|
  {
    var init := names[..|names| - 1];
    if slot < |NonBlank(init)| {
      EverySlotIndexed(init, slot);
      var i :| 0 <= i < |init| && ColumnIndices(init)[i] == Some(slot);
      assert init[..i] == names[..i];
      assert ColumnIndices(names)[i] == Some(slot);
    } else {
      assert init == names[..|names| - 1];
      assert ColumnIndices(names)[|names| - 1] == Some(slot);
    }
  }

  /** Whether output entry `entry` can be read from `record`: it names an index inside the record. */
  predicate Fits<V>(record: seq<V>, entry: Option<nat>)
  {
    entry.Some? && entry.value < |record|
  }

  /** The exception reading output column `column` through the unfitting `entry` raises. */
  function Misfit(column: nat, entry: Option<nat>): Fault
  {
    if entry.None? then NullIndexEntry(column) else RecordIndexOutOfBounds(column, entry.value)
  }

  /**
   * The row `nextRecordInternal` builds from `record`: field `i` is `record[columnIndex[i]]`.
   * The first column whose entry is null or past the record's end throws instead.
   */
  function Project<V>(record: seq<V>, columnIndex: seq<Option<nat>>): (r: Result<seq<V>, Fault>)
    ensures r.Ok? ==> |r.value| == |columnIndex|
    ensures r.Err? ==> r.error.NullIndexEntry? || r.error.RecordIndexOutOfBounds?
  {
    if columnIndex == [] then Ok([])
    else
      var c := |columnIndex| - 1;
      match Project(record, columnIndex[..c])
      case Err(e) => Err(e)
      case Ok(row) =>
        if Fits(record, columnIndex[c]) then Ok(row + [record[columnIndex[c].value]])
        else Err(Misfit(c, columnIndex[c]))
  }

  /**
   * A row comes out iff every entry names an index inside the record; it is as wide as
   * `columnIndex` and field `i` is `record[columnIndex[i]]`. Otherwise the exception is the one
   * for the first column that does not fit.
   */
  lemma {:induction false} ProjectMeaning<V>(record: seq<V>, columnIndex: seq<Option<nat>>)
    ensures var r := Project(record, columnIndex);
      && (r.Ok? <==> forall i :: 0 <= i < |columnIndex| ==> Fits(record, columnIndex[i]))
      && (r.Ok? ==> |r.value| == |columnIndex|)
      && (r.Ok? ==> forall i :: 0 <= i < |columnIndex| ==> r.value[i] == record[columnIndex[i].value])
      && (r.Err? ==> (r.error.NullIndexEntry? || r.error.RecordIndexOutOfBounds?) && r.error.column < |columnIndex|)
      && (r.Err? ==> var c := r.error.column;
            && r.error == Misfit(c, columnIndex[c])
            && !Fits(record, columnIndex[c])
            && forall i :: 0 <= i < c ==> Fits(record, columnIndex[i]))
    decreases |columnIndex|
  {
    if columnIndex != [] {
      var c := |columnIndex| - 1;
      ProjectMeaning(record, columnIndex[..c]);
    }
  }

  /** No declared column name is blank. */
  predicate AllNamed(names: seq<string>)
  {
    forall i :: 0 <= i < |names| ==> !IsBlank(names[i])
  }

  /** With columns configured and a record as wide as the projection, every present index can be read. */
  lemma ConfiguredIndicesFit<V>(record: seq<V>, names: seq<string>)
    requires |NonBlank(names)| <= |record|
    ensures forall i :: 0 <= i < |names| ==> (Fits(record, ColumnIndices(names)[i]) <==> !IsBlank(names[i]))
  {
    forall i | 0 <= i < |names| && ColumnIndices(names)[i].Some?
      ensures Fits(record, ColumnIndices(names)[i])
    {
      IndexNamesProjectedColumn(names, i);
    }
  }

  /** Once columns are configured, a record as wide as the projection gives a row iff no declared name is blank; then the row is the record itself. */
  lemma ConfiguredProjection<V>(record: seq<V>, names: seq<string>)
    requires |NonBlank(names)| <= |record|
    ensures Project(record, ColumnIndices(names)).Ok? <==> AllNamed(names)
    ensures AllNamed(names) ==> |names| <= |record| && Project(record, ColumnIndices(names)) == Ok(record[..|names|])
  {
    if AllNamed(names) {
      AllNamedProjection(record, names);
    } else {
      var b :| 0 <= b < |names| && IsBlank(names[b]);
      BlankNameFails(record, names, b);
    }
  }

  /** Without blank names every column fits and reads the source index of the same position. */
  lemma AllNamedProjection<V>(record: seq<V>, names: seq<string>)
    requires |NonBlank(names)| <= |record| && AllNamed(names)
    ensures |names| <= |record| && Project(record, ColumnIndices(names)) == Ok(record[..|names|])
  {
    AllNamedIndices(names);
    IdentityProjection(record, ColumnIndices(names));
  }

  /** Entries `0, 1, 2, ...` read a record's leading fields, unchanged. */
  lemma {:induction false} IdentityProjection<V>(record: seq<V>, columnIndex: seq<Option<nat>>)
    requires |columnIndex| <= |record|
    requires forall i :: 0 <= i < |columnIndex| ==> columnIndex[i] == Some(i)
    ensures Project(record, columnIndex) == Ok(record[..|columnIndex|])
    decreases |columnIndex|
  {
    if columnIndex != [] {
      var c := |columnIndex| - 1;
      IdentityProjection(record, columnIndex[..c]);
      assert record[..c] + [record[c]] == record[..c + 1];
    }
  }

  /** A blank name makes its column, and so the projection, fail. */
  lemma BlankNameFails<V>(record: seq<V>, names: seq<string>, b: nat)
    requires b < |names| && IsBlank(names[b])
    ensures Project(record, ColumnIndices(names)).Err?
  {
    var ci := ColumnIndices(names);
    assert ci[b] == None;
    assert !Fits(record, ci[b]);
    ProjectMeaning(record, ci);
  }

  /** Without blank names, column `i` reads source index `i`. */
  lemma AllNamedIndices(names: seq<string>)
    requires AllNamed(names)
    ensures NonBlank(names) == names
    ensures forall i :: 0 <= i < |names| ==> ColumnIndices(names)[i] == Some(i)
  {
    PrefixAllNamed(names, |names|);
    assert names[..|names|] == names;
    forall i | 0 <= i < |names|
      ensures ColumnIndices(names)[i] == Some(i)
    {
      PrefixAllNamed(names, i);
    }
  }

  /** The projection of a prefix without blank names is that prefix. */
  lemma {:induction false} PrefixAllNamed(names: seq<string>, i: nat)
    requires i <= |names| && AllNamed(names)
    ensures NonBlank(names[..i]) == names[..i]
  {
    if i > 0 {
      PrefixAllNamed(names, i - 1);
      NonBlankSnoc(names, i - 1);
    }
  }

  /**
   * The null test at line 107 is on the whole list, so a blank name is never replaced by its
   * literal: the first blank column throws, even when the record is wide enough.
   */
  lemma BlankColumnThrows<V>(record: seq<V>, names: seq<string>, b: nat)
    requires |NonBlank(names)| <= |record|
    requires b < |names| && IsBlank(names[b])
    requires forall i :: 0 <= i < b ==> !IsBlank(names[i])
    ensures Project(record, ColumnIndices(names)) == Err(NullIndexEntry(b))
  {
    ConfiguredIndicesFit(record, names);
    var ci := ColumnIndices(names);
    var r := Project(record, ci);
    ProjectMeaning(record, ci);
    assert !Fits(record, ci[b]);
    assert r.Err?;
    var c := r.error.column;
    assert c == b;
  }

  /** Column "colA" and a literal column over the record ["a1", "a2"]: the literal column throws instead of reading "X". */
  lemma LiteralColumnThrows()
    ensures Project(["a1", "a2"], ColumnIndices(["colA", ""])) == Err(NullIndexEntry(1))
  {
    var names := ["colA", ""];
    assert !IsBlank(names[0]) by {
      assert !IsWhitespace(names[0][0]);
    }
    assert NonBlank(names) == ["colA"] by {
      NonBlankSnoc(names, 0);
      NonBlankSnoc(names, 1);
      assert names[..0] == [] && names[..2] == names;
    }
    BlankColumnThrows(["a1", "a2"], names, 1);
  }
}
