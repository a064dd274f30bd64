/**
 * The cursor a reader keeps over its group of splits: a position in the group and the
 * decoder of the split there. Each split is modelled by the records its decoder produces.
 */
module SplitCursor {
  import opened Sequences

  /** One decoded record (the library's `Object[]`). */
  type Record<V> = seq<V>

  /** A split's RecordReader: the records it decodes, in order, and how many it has handed out. */
  datatype Decoder<V> = Decoder(records: seq<Record<V>>, consumed: nat)
  {
    /** A call to `nextKeyValue` has moved the decoder onto a record. */
    predicate HasCurrent()
    {
      0 < consumed <= |records|
    }

    /** `getCurrentValue`: the record the last successful `nextKeyValue` moved onto. */
    function CurrentValue(): Record<V>
      requires HasCurrent()
    {
      records[consumed - 1]
    }
  }

  /** The records handed out by a cursor on split `p` whose decoder has produced `consumed` records. */
  ghost function DeliveredAt<V>(splits: seq<seq<Record<V>>>, p: nat, consumed: nat): (d: seq<Record<V>>)
    requires p < |splits| && consumed <= |splits[p]|
  {
    Flatten(splits[..p]) + splits[p][..consumed]
  }

  /** One more record from the current decoder adds that record to the delivered ones. */
  lemma DeliveredAdvance<V>(splits: seq<seq<Record<V>>>, p: nat, consumed: nat)
    requires p < |splits| && consumed < |splits[p]|
    ensures DeliveredAt(splits, p, consumed + 1) == DeliveredAt(splits, p, consumed) + [splits[p][consumed]]
  {
    assert splits[p][..consumed + 1] == splits[p][..consumed] + [splits[p][consumed]];
  }

  /** Every split strictly between positions `lo` and `hi` is empty. */
  predicate EmptyBetween<V>(splits: seq<seq<Record<V>>>, lo: int, hi: int)
  {
    forall t :: lo < t < hi && 0 <= t < |splits| ==> splits[t] == []
  }

  /** Skipping only empty splits, a fresh decoder on split `q` has delivered what the exhausted decoder on split `p` had. */
  lemma {:induction false} SkipEmptySplits<V>(splits: seq<seq<Record<V>>>, p: nat, q: nat)
    requires p < q < |splits| && EmptyBetween(splits, p, q)
    ensures DeliveredAt(splits, q, 0) == DeliveredAt(splits, p, |splits[p]|)
    decreases q - p
  {
    FlattenSnoc(splits, q - 1);
    if q - 1 > p {
      SkipEmptySplits(splits, p, q - 1);
      assert splits[q - 1] == [];
    } else {
      assert splits[p][..|splits[p]|] == splits[p];
    }
  }

  /** With only empty splits after split `p`, its exhausted decoder has delivered every record of the group. */
  lemma SkipToEnd<V>(splits: seq<seq<Record<V>>>, p: nat)
    requires p < |splits| && EmptyBetween(splits, p, |splits|)
    ensures DeliveredAt(splits, p, |splits[p]|) == Flatten(splits)
  {
    var n := |splits|;
    FlattenSnoc(splits, n - 1);
    assert splits[..n] == splits;
    if n - 1 > p {
      SkipEmptySplits(splits, p, n - 1);
      assert splits[n - 1] == [];
    } else {
      assert splits[p][..|splits[p]|] == splits[p];
    }
  }

  /** A group of three splits holding 2, 0 and 3 records: 5 records, the empty split contributing none. */
  lemma TwoNoneThree<V>(a: seq<Record<V>>, b: seq<Record<V>>, c: seq<Record<V>>)
    requires |a| == 2 && b == [] && |c| == 3
    ensures Flatten([a, b, c]) == a + c
    ensures SumLengths([a, b, c]) == 5
  {
    var ss := [a, b, c];
    assert ss[..2] == [a, b] && [a, b][..1] == [a] && [a][..0] == [];
    assert Flatten([a]) == a;
    assert Flatten([a, b]) == a;
    assert Flatten(ss) == Flatten(ss[..2]) + c;
    assert ss[1..] == [b, c] && [b, c][1..] == [c] && [c][1..] == [];
    assert SumLengths([c]) == 3;
    assert SumLengths([b, c]) == 3;
  }
}
