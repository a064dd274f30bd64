/**
 * How `createInputSplits` cuts the library's split list into groups, one group per
 * parallel reader: `k = min(num, n)` contiguous blocks of `g = ceil(n / k)` splits each,
 * the last blocks shorter or empty.
 */
module SplitGroups {
  import opened Sequences

  /** A CarbonFlinkInputSplit: the library splits given to one reader, and its group number. */
  datatype CarbonFlinkInputSplit<S> = CarbonFlinkInputSplit(splits: seq<S>, index: nat)

  /** `splitNum`: the requested number of groups, but never more groups than splits. */
  function SplitNum(n: nat, num: int): (k: nat)
    requires num >= 0
    ensures k <= n && k <= num
    ensures k == n || k == num
  {
    if n < num then n else num
  }

  /**
   * `groupSize = (int) Math.ceil(n / (double) k)`. `k == 0` happens when `n == 0` or `num == 0`.
   * With `n == 0` the quotient is NaN, which the cast turns into 0; with `n > 0` it is
   * +Infinity, which the cast turns into `Integer.MAX_VALUE`. No group is built in either case,
   * so the model gives 0 for both.
   */
  function GroupSize(n: nat, k: nat): (g: nat)
    ensures k == 0 ==> g == 0
    ensures k >= 1 ==> n <= g * k && (g - 1) * k < n && (n > 0 ==> g >= 1)
  {
    if k == 0 then 0
    else
      var q, r := (n + k - 1) / k, (n + k - 1) % k;
      assert n + k - 1 == q * k + r && 0 <= r < k;
      assert q * k - k == (q - 1) * k;
      q
  }

  /** Where block `i` of size `g` starts in a list of `n`: at `i * g`, or at `n` once that is past the end. */
  function Start(n: nat, g: nat, i: nat): (lo: nat)
    ensures lo <= n
  {
    if i * g < n then i * g else n
  }

  /** Blocks do not overlap or leave gaps: block `i + 1` starts no earlier, and at most `g` later, than block `i`. */
  lemma StartStep(n: nat, g: nat, i: nat)
    ensures Start(n, g, i) <= Start(n, g, i + 1) <= Start(n, g, i) + g
    ensures Start(n, g, i) == n ==> Start(n, g, i + 1) == n
  {
    assert (i + 1) * g == i * g + g;
  }

  /** The inner loop of `createInputSplits` stops after `j` splits exactly where block `i + 1` starts. */
  lemma BlockEnd(n: nat, g: nat, i: nat, j: nat)
    requires j <= g && (j > 0 ==> i * g + j <= n)
    requires !(j < g && i * g + j < n)
    ensures Start(n, g, i) + j == Start(n, g, i + 1)
    ensures j > 0 ==> Start(n, g, i) == i * g
  {
    assert (i + 1) * g == i * g + g;
  }

  /** Group `i`: the splits from the start of block `i` to the start of block `i + 1`. */
  function Group<S>(s: seq<S>, g: nat, i: nat): CarbonFlinkInputSplit<S>
  {
    StartStep(|s|, g, i);
    CarbonFlinkInputSplit(s[Start(|s|, g, i)..Start(|s|, g, i + 1)], i)
  }

  /** The groups `createInputSplits(num)` returns for the library's split list `s`. */
  function Groups<S>(s: seq<S>, num: int): (r: seq<CarbonFlinkInputSplit<S>>)
    requires num >= 0
    ensures |r| == SplitNum(|s|, num)
    ensures s == [] ==> r == []
  {
    var k := SplitNum(|s|, num);
    var g := GroupSize(|s|, k);
    seq(k, i requires 0 <= i < k => Group(s, g, i))
  }

  /** The split lists of the groups, in group order. */
  function SplitsOf<S>(gs: seq<CarbonFlinkInputSplit<S>>): (r: seq<seq<S>>)
    ensures |r| == |gs|
  {
    seq(|gs|, i requires 0 <= i < |gs| => gs[i].splits)
  }

  /** The first `i` groups, concatenated, are the splits before block `i`. */
  lemma {:induction false} GroupsPrefix<S>(s: seq<S>, num: int, i: nat)
    requires num >= 1 && i <= SplitNum(|s|, num)
    ensures Flatten(SplitsOf(Groups(s, num))[..i]) == s[..Start(|s|, GroupSize(|s|, SplitNum(|s|, num)), i)]
    decreases i
  {
    var g := GroupSize(|s|, SplitNum(|s|, num));
    var parts := SplitsOf(Groups(s, num));
    if i == 0 {
      assert parts[..0] == [];
    } else {
      GroupsPrefix(s, num, i - 1);
      FlattenSnoc(parts, i - 1);
      StartStep(|s|, g, i - 1);
      assert parts[i - 1] == s[Start(|s|, g, i - 1)..Start(|s|, g, i)];
      assert s[..Start(|s|, g, i - 1)] + s[Start(|s|, g, i - 1)..Start(|s|, g, i)] == s[..Start(|s|, g, i)];
    }
  }

  /** The groups, concatenated in index order, are exactly the original split list: nothing lost, duplicated or reordered. */
  lemma ConcatenatedGroupsAreSplits<S>(s: seq<S>, num: int)
    requires num >= 1
    ensures Flatten(SplitsOf(Groups(s, num))) == s
  {
    var k := SplitNum(|s|, num);
    var g := GroupSize(|s|, k);
    GroupsPrefix(s, num, k);
    assert SplitsOf(Groups(s, num))[..k] == SplitsOf(Groups(s, num));
    assert Start(|s|, g, k) == |s|;
  }

  /**
   * Group `i` carries index `i` and holds the splits at positions `[i*g, min((i+1)*g, n))`,
   * at most `g` of them; when `i*g` is already past the end it is empty.
   */
  lemma GroupBounds<S>(s: seq<S>, num: int, i: nat)
    requires num >= 1 && i < SplitNum(|s|, num)
    ensures var g := GroupSize(|s|, SplitNum(|s|, num));
      && Groups(s, num)[i].index == i
      && |Groups(s, num)[i].splits| <= g
      && (i * g < |s| ==> Groups(s, num)[i].splits == s[i * g..if (i + 1) * g < |s| then (i + 1) * g else |s|])
      && (i * g >= |s| ==> Groups(s, num)[i].splits == [])
  {
    var g := GroupSize(|s|, SplitNum(|s|, num));
    StartStep(|s|, g, i);
    assert (i + 1) * g == i * g + g;
  }

  /** Only trailing groups can be empty: once a group is empty, every later group is empty too. */
  lemma OnlyTrailingGroupsEmpty<S>(s: seq<S>, num: int, i: nat, j: nat)
    requires num >= 1 && i <= j < SplitNum(|s|, num)
    requires Groups(s, num)[i].splits == []
    ensures Groups(s, num)[j].splits == []
  {
    var n, g := |s|, GroupSize(|s|, SplitNum(|s|, num));
    StartStep(n, g, i);
    assert Start(n, g, i) == n by {
      assert (i + 1) * g == i * g + g;
    }
    StartStaysAtEnd(n, g, i, j);
    StartStep(n, g, j);
  }

  /** A block that starts at the end is followed only by blocks that start there too. */
  lemma StartStaysAtEnd(n: nat, g: nat, i: nat, j: nat)
    requires i <= j && Start(n, g, i) == n
    ensures Start(n, g, j) == n
  {
    assert j * g == i * g + (j - i) * g;
  }

  /** With no more splits than requested groups, every group holds exactly one split, in order. */
  lemma FewSplitsOnePerGroup<S>(s: seq<S>, num: int, i: nat)
    requires num >= 1 && |s| <= num && i < |s|
    ensures |Groups(s, num)| == |s|
    ensures Groups(s, num)[i].splits == [s[i]]
  {
    var n := |s|;
    assert SplitNum(n, num) == n;
    OneSplitEach(n);
    assert Start(n, 1, i) == i && Start(n, 1, i + 1) == i + 1;
    assert Groups(s, num)[i] == Group(s, 1, i);
  }

  /** `n` splits over `n` groups: blocks of one. */
  lemma OneSplitEach(n: nat)
    requires n >= 1
    ensures GroupSize(n, n) == 1
  {
  }

  /** Five splits over four readers: blocks of two, so the groups hold 2, 2, 1 and 0 splits. */
  lemma FiveSplitsFourGroups<S>(s: seq<S>)
    requires |s| == 5
    ensures |Groups(s, 4)| == 4
    ensures Groups(s, 4)[0].splits == s[0..2] && Groups(s, 4)[1].splits == s[2..4]
    ensures Groups(s, 4)[2].splits == s[4..5] && Groups(s, 4)[3].splits == []
  {
    assert GroupSize(5, 4) == 2;
  }
}
