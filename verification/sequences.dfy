/** Concatenation of a sequence of sequences, and the facts about it the reader relies on. */
module Sequences {

  /** All the sequences of `ss`, concatenated in order. */
  function Flatten<T>(ss: seq<seq<T>>): seq<T>
  {
    if ss == [] then [] else Flatten(ss[..|ss| - 1]) + ss[|ss| - 1]
  }

  /** The sum of the lengths of the sequences of `ss`, counted from the front. */
  function SumLengths<T>(ss: seq<seq<T>>): nat
  {
    if ss == [] then 0 else |ss[0]| + SumLengths(ss[1..])
  }

  /** Taking one more sequence of `ss` adds exactly that sequence at the end. */
  lemma FlattenSnoc<T>(ss: seq<seq<T>>, p: nat)
    requires p < |ss|
    ensures Flatten(ss[..p + 1]) == Flatten(ss[..p]) + ss[p]
  {
    assert ss[..p + 1][..p] == ss[..p];
  }

  /** Flatten distributes over concatenation. */
  lemma {:induction false} FlattenAppend<T>(ss: seq<seq<T>>, ts: seq<seq<T>>)
    ensures Flatten(ss + ts) == Flatten(ss) + Flatten(ts)
    decreases |ts|
  {
    if ts == [] {
      assert ss + ts == ss;
    } else {
      var init := ts[..|ts| - 1];
      assert (ss + ts)[..|ss + ts| - 1] == ss + init;
      FlattenAppend(ss, init);
    }
  }

  /** The flattened sequence holds as many elements as all the parts together. */
  lemma {:induction false} FlattenLength<T>(ss: seq<seq<T>>)
    ensures |Flatten(ss)| == SumLengths(ss)
    decreases |ss|
  {
    if ss != [] {
      assert [ss[0]] + ss[1..] == ss;
      FlattenAppend([ss[0]], ss[1..]);
      assert [ss[0]][..0] == [];
      FlattenLength(ss[1..]);
    }
  }

  /** Everything before part `p`, followed by the first `c` elements of part `p`, is a prefix of the whole. */
  lemma PrefixOfFlatten<T>(ss: seq<seq<T>>, p: nat, c: nat)
    requires p < |ss| && c <= |ss[p]|
    ensures Flatten(ss[..p]) + ss[p][..c] <= Flatten(ss)
  {
    FlattenSnoc(ss, p);
    assert ss[..p + 1] + ss[p + 1..] == ss;
    FlattenAppend(ss[..p + 1], ss[p + 1..]);
    var whole := Flatten(ss);
    var front := Flatten(ss[..p]);
    assert whole == front + ss[p] + Flatten(ss[p + 1..]);
    assert front + ss[p][..c] == whole[..|front| + c];
  }
}
