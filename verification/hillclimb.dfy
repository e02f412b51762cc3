/** The greedy hill-climb of `searchBestListID` (the `hillclimb` lambda in
    main.cpp): from a start key, scan the 32 single-bit neighbours in order 0..31,
    moving to a neighbour as soon as it scores strictly higher than the current
    key (first improvement), for at most `hillIters` passes, stopping early after
    a pass that moved nowhere. */
module HillClimb {
  import opened Scoring

  /** The neighbour of `key` that differs from it in bit `b` only (`key ^ (1u << b)`).
      The bit index is a `bv8` rather than a `nat` so that the shift amount needs
      no conversion from an integer, which the verifier handles poorly. */
  function Flip(key: bv32, b: bv8): (n: bv32)
    requires b < 32
    ensures n != key
    ensures n ^ key == (1 as bv32) << b
  {
    key ^ ((1 as bv32) << b)
  }

  /** No single-bit neighbour of `key` scores above `score`. */
  ghost predicate IsLocalOptimum(member: Oracle, block: seq<bv16>, key: bv32, score: int) {
    forall b: bv8 :: b < 32 ==> Score(member, Flip(key, b), block) <= score
  }

  /** The variables of one pass: the current key, its score, and whether the pass
      has moved yet. */
  datatype PassState = PassState(cur: bv32, curScore: int, improved: bool)

  /** Bit `b` of a pass: try the neighbour across bit `b` and move to it only when
      it scores strictly higher. */
  function TryBit(member: Oracle, block: seq<bv16>, st: PassState, b: bv8): (st': PassState)
    requires b < 32
    ensures st' == st <==> Score(member, Flip(st.cur, b), block) <= st.curScore
    ensures st' != st ==>
              && st'.cur == Flip(st.cur, b)
              && st'.curScore == Score(member, st'.cur, block)
              && st'.curScore > st.curScore
              && st'.improved
  {
    var cand := Flip(st.cur, b);
    var sc := Score(member, cand, block);
    if sc > st.curScore then PassState(cand, sc, true) else st
  }

  /** Bits `b..31` of a pass. The score never drops, it stays the score of the
      current key, the pass counts as improved exactly when the score rose, and a
      pass that did not move leaves the key alone and has seen no better neighbour
      among the bits it scanned. */
  function Scan(member: Oracle, block: seq<bv16>, st: PassState, b: bv8): (st': PassState)
    requires b <= 32
    decreases 32 - b
    ensures st'.curScore >= st.curScore
    ensures st.curScore == Score(member, st.cur, block) ==> st'.curScore == Score(member, st'.cur, block)
    ensures st'.improved <==> st.improved || st'.curScore > st.curScore
    ensures st'.curScore == st.curScore ==>
              && st'.cur == st.cur
              && forall i: bv8 :: b <= i < 32 ==> Score(member, Flip(st.cur, i), block) <= st.curScore
  {
    if b == 32 then st else Scan(member, block, TryBit(member, block, st, b), b + 1)
  }

  /** Outcome of a climb: the final key, its score, and how many passes ran. */
  datatype Climb = Climb(key: bv32, score: int, passes: nat)

  /** At most `passesLeft` passes from `cur`, stopping after a pass that did not move. */
  function Passes(member: Oracle, block: seq<bv16>, cur: bv32, curScore: int, passesLeft: nat): (c: Climb)
    decreases passesLeft
    ensures c.score >= curScore
    ensures c.key != cur ==> c.score > curScore
    ensures curScore == Score(member, cur, block) ==> c.score == Score(member, c.key, block)
    ensures c.passes <= passesLeft
    ensures c.passes == 0 <==> passesLeft == 0
    ensures c.passes < passesLeft ==> IsLocalOptimum(member, block, c.key, c.score)
  {
    if passesLeft == 0 then Climb(cur, curScore, 0)
    else
      var p := Scan(member, block, PassState(cur, curScore, false), 0);
      if !p.improved then Climb(p.cur, p.curScore, 1)
      else
        var c := Passes(member, block, p.cur, p.curScore, passesLeft - 1);
        Climb(c.key, c.score, c.passes + 1)
  }

  /** The number of passes the loop `for (pass = 0; pass < hillIters; ...)` of main.cpp
      allows: none when `hillIters` is not positive. */
  function PassBudget(hillIters: int): (n: nat)
    ensures hillIters > 0 ==> n == hillIters
    ensures hillIters <= 0 ==> n == 0
  {
    if hillIters > 0 then hillIters else 0
  }

  /** The climb from `start`. Its score is the score of the key it returns, never
      below the start key's score, and strictly above it whenever it moved; it ran
      at most `hillIters` passes, and when it stopped before using them all it
      stopped at a local optimum. */
  function ClimbFrom(member: Oracle, block: seq<bv16>, start: bv32, hillIters: int): (c: Climb)
    ensures c.score == Score(member, c.key, block)
    ensures c.score >= Score(member, start, block)
    ensures c.key != start ==> c.score > Score(member, start, block)
    ensures c.passes <= PassBudget(hillIters)
    ensures hillIters <= 0 ==> c.key == start
    ensures c.passes < hillIters ==> IsLocalOptimum(member, block, c.key, c.score)
  {
    Passes(member, block, start, Score(member, start, block), PassBudget(hillIters))
  }

  /** Unfolding `Passes` by one pass. */
  lemma PassesStep(member: Oracle, block: seq<bv16>, cur: bv32, curScore: int, passesLeft: nat, p: PassState)
    requires passesLeft > 0
    requires p == Scan(member, block, PassState(cur, curScore, false), 0)
    ensures !p.improved ==> Passes(member, block, cur, curScore, passesLeft).key == p.cur
    ensures !p.improved ==> Passes(member, block, cur, curScore, passesLeft).score == p.curScore
    ensures p.improved ==> Passes(member, block, cur, curScore, passesLeft).key
                           == Passes(member, block, p.cur, p.curScore, passesLeft - 1).key
    ensures p.improved ==> Passes(member, block, cur, curScore, passesLeft).score
                           == Passes(member, block, p.cur, p.curScore, passesLeft - 1).score
  {
  }

  /** One pass as written in main.cpp: the inner loop over the 32 bits. */
  method Pass(member: Oracle, block: seq<bv16>, cur0: bv32, curScore0: int)
    returns (cur: bv32, curScore: int, improved: bool)
    ensures PassState(cur, curScore, improved) == Scan(member, block, PassState(cur0, curScore0, false), 0)
  {
    cur, curScore, improved := cur0, curScore0, false;
    var b: bv8 := 0;
    while b < 32
      invariant b <= 32
      invariant Scan(member, block, PassState(cur, curScore, improved), b)
             == Scan(member, block, PassState(cur0, curScore0, false), 0)
    {
      var cand := Flip(cur, b);
      var sc := ScoreList(member, cand, block);
      if sc > curScore {
        cur := cand;
        curScore := sc;
        improved := true;
      }
      b := b + 1;
    }
  }

  /** The climb as written in main.cpp: passes in a loop with an early `break`. */
  method Hillclimb(member: Oracle, block: seq<bv16>, startID: bv32, hillIters: int)
    returns (cur: bv32, curScore: int)
    ensures cur == ClimbFrom(member, block, startID, hillIters).key
    ensures curScore == ClimbFrom(member, block, startID, hillIters).score
  {
    ghost var goal := ClimbFrom(member, block, startID, hillIters);
    ghost var budget := PassBudget(hillIters);
    cur := startID;
    curScore := ScoreList(member, cur, block);
    var pass := 0;
    while pass < hillIters
      invariant 0 <= pass <= budget
      invariant Passes(member, block, cur, curScore, budget - pass).key == goal.key
      invariant Passes(member, block, cur, curScore, budget - pass).score == goal.score
    {
      ghost var cur0, curScore0 := cur, curScore;
      var improved;
      cur, curScore, improved := Pass(member, block, cur, curScore);
      PassesStep(member, block, cur0, curScore0, budget - pass, PassState(cur, curScore, improved));
      if !improved {
        break;
      }
      pass := pass + 1;
    }
  }
}
