/** Scoring a key against a block (`score_list` in main.cpp): count the block's
    values that are members of the key's list and take the larger of that count
    and its complement, so that the score does not depend on which side of the
    split is called "the list".

    Scoring and everything built on it (hill-climb, search) use the membership
    test only as a black box, so they take it as a parameter of type `Oracle`;
    main.cpp instantiates it with `hasValue` (`Prp16.HasValue`), and the driver
    model does the same. */
module Scoring {

  /** A keyed membership test: is value `x` a member of the list named `k`? */
  type Oracle = (bv32, bv16) -> bool

  /** Number of values of `block` that are members of list `k`. */
  function CountMembers(member: Oracle, k: bv32, block: seq<bv16>): (s: nat)
    ensures s <= |block|
  {
    if |block| == 0 then 0
    else
      CountMembers(member, k, block[..|block| - 1]) + (if member(k, block[|block| - 1]) then 1 else 0)
  }

  /** Number of values of `block` that are not members of list `k`. */
  function CountNonMembers(member: Oracle, k: bv32, block: seq<bv16>): (t: nat)
    ensures t <= |block|
  {
    if |block| == 0 then 0
    else
      CountNonMembers(member, k, block[..|block| - 1]) + (if member(k, block[|block| - 1]) then 0 else 1)
  }

  /** Every value of the block is on exactly one side of the split. */
  lemma {:induction false} CountsPartition(member: Oracle, k: bv32, block: seq<bv16>)
    ensures CountMembers(member, k, block) + CountNonMembers(member, k, block) == |block|
  {
    if |block| > 0 {
      CountsPartition(member, k, block[..|block| - 1]);
    }
  }

  /** The positions of the block that hold members. */
  function MemberPositions(member: Oracle, k: bv32, block: seq<bv16>): set<nat> {
    set i | 0 <= i < |block| && member(k, block[i])
  }

  /** The count is the number of member positions. */
  lemma {:induction false} CountIsMemberPositions(member: Oracle, k: bv32, block: seq<bv16>)
    ensures CountMembers(member, k, block) == |MemberPositions(member, k, block)|
  {
    if |block| > 0 {
      var n := |block| - 1;
      var init := block[..n];
      CountIsMemberPositions(member, k, init);
      if member(k, block[n]) {
        assert MemberPositions(member, k, block) == MemberPositions(member, k, init) + {n};
      } else {
        assert MemberPositions(member, k, block) == MemberPositions(member, k, init);
      }
    }
  }

  /** The score: the size of the larger side of the split, i.e. `max(s, n - s)`
      with `s` the member count. It never falls below half the block. */
  function Score(member: Oracle, k: bv32, block: seq<bv16>): (sc: int)
    ensures sc == CountMembers(member, k, block) || sc == CountNonMembers(member, k, block)
    ensures sc >= CountMembers(member, k, block) && sc >= CountNonMembers(member, k, block)
    ensures |block| - sc <= sc <= |block|
    ensures sc >= (|block| + 1) / 2
    ensures |block| == 0 ==> sc == 0
  {
    CountsPartition(member, k, block);
    var s := CountMembers(member, k, block);
    if s < |block| - s then |block| - s else s
  }

  /** Polarity does not matter: two keys that put every value of the block on
      opposite sides of the split score the same. */
  lemma {:induction false} ScoreIgnoresPolarity(member: Oracle, k1: bv32, k2: bv32, block: seq<bv16>)
    requires forall i :: 0 <= i < |block| ==> member(k1, block[i]) != member(k2, block[i])
    ensures CountMembers(member, k1, block) == CountNonMembers(member, k2, block)
    ensures Score(member, k1, block) == Score(member, k2, block)
  {
    if |block| > 0 {
      ScoreIgnoresPolarity(member, k1, k2, block[..|block| - 1]);
    }
    CountsPartition(member, k1, block);
    CountsPartition(member, k2, block);
  }

  /** The scorer as written in main.cpp: one pass counting members, then `max`. */
  method ScoreList(member: Oracle, listID: bv32, data: seq<bv16>) returns (sc: int)
    ensures sc == Score(member, listID, data)
  {
    var s := 0;
    var i := 0;
    while i < |data|
      invariant 0 <= i <= |data|
      invariant s == CountMembers(member, listID, data[..i])
    {
      assert data[..i + 1][..i] == data[..i];
      s := s + (if member(listID, data[i]) then 1 else 0);
      i := i + 1;
    }
    assert data[..|data|] == data;
    sc := if s < |data| - s then |data| - s else s;
  }
}
