/** Multi-start search (`searchBestListID` in main.cpp): climb from `restarts`
    start keys and keep the first climb that reaches the highest score. The
    main.cpp draws the start keys from a `mt19937_64` generator seeded by the
    caller; here the generator's stream is the parameter `draw`, with `draw(r)`
    the key drawn for restart `r`. */
module Search {
  import opened Scoring
  import opened HillClimb

  /** The search parameters the algorithm reads (`SearchConfig`). */
  datatype SearchConfig = SearchConfig(restarts: int, hillIters: int)

  /** The best key found and its score (`SearchResult`). */
  datatype SearchResult = SearchResult(bestID: bv32, bestScore: int)

  /** The result before any restart has run: key 0 with score -1. */
  const NoResult := SearchResult(0, -1)

  /** Best-so-far fold: a candidate replaces the running best only when it scores
      strictly higher. The result is the running best or one of the candidates, and
      no candidate scores above it. */
  function KeepBest(acc: SearchResult, cands: seq<SearchResult>): (r: SearchResult)
    decreases |cands|
    ensures r.bestScore >= acc.bestScore
    ensures r == acc || r in cands
    ensures forall i :: 0 <= i < |cands| ==> cands[i].bestScore <= r.bestScore
  {
    if |cands| == 0 then acc
    else KeepBest(Better(acc, cands[0]), cands[1..])
  }

  /** `cands[i]` has the highest score, beats `acc`, and no earlier candidate
      reaches that score. */
  ghost predicate IsFirstBest(acc: SearchResult, cands: seq<SearchResult>, i: int) {
    && 0 <= i < |cands|
    && acc.bestScore < cands[i].bestScore
    && (forall j :: 0 <= j < |cands| ==> cands[j].bestScore <= cands[i].bestScore)
    && (forall j :: 0 <= j < i ==> cands[j].bestScore < cands[i].bestScore)
  }

  /** When no candidate beats `acc`, the fold keeps `acc`. */
  lemma {:induction false} KeepBestKeepsAcc(acc: SearchResult, cands: seq<SearchResult>)
    requires forall j :: 0 <= j < |cands| ==> cands[j].bestScore <= acc.bestScore
    ensures KeepBest(acc, cands) == acc
    decreases |cands|
  {
    if |cands| > 0 {
      assert forall j :: 0 <= j < |cands| - 1 ==> cands[1..][j] == cands[j + 1];
      KeepBestKeepsAcc(acc, cands[1..]);
    }
  }

  /** The better of `acc` and `c`, as one step of the fold keeps it. */
  function Better(acc: SearchResult, c: SearchResult): SearchResult {
    if c.bestScore > acc.bestScore then c else acc
  }

  /** A first best of the tail, against the running best after `c0`, is a first
      best of the whole list one position later. */
  lemma FirstBestShifts(acc: SearchResult, c0: SearchResult, rest: seq<SearchResult>, i: int)
    requires IsFirstBest(Better(acc, c0), rest, i)
    ensures IsFirstBest(acc, [c0] + rest, i + 1)
  {
    var cands := [c0] + rest;
    assert cands[i + 1] == rest[i];
    forall j | 0 <= j < |cands|
      ensures cands[j].bestScore <= cands[i + 1].bestScore
      ensures j < i + 1 ==> cands[j].bestScore < cands[i + 1].bestScore
    {
      if j > 0 {
        assert cands[j] == rest[j - 1];
      }
    }
  }

  /** When `c0` beats `acc` and nothing after it beats `c0`, `c0` is the first best. */
  lemma HeadIsFirstBest(acc: SearchResult, c0: SearchResult, rest: seq<SearchResult>)
    requires c0.bestScore > acc.bestScore
    requires forall j :: 0 <= j < |rest| ==> rest[j].bestScore <= c0.bestScore
    ensures IsFirstBest(acc, [c0] + rest, 0)
  {
    var cands := [c0] + rest;
    forall j | 0 <= j < |cands|
      ensures cands[j].bestScore <= c0.bestScore
    {
      if j > 0 {
        assert cands[j] == rest[j - 1];
      }
    }
  }

  /** Ties go to the earliest candidate: when some candidate beats `acc`, the fold
      returns the first candidate with the highest score. */
  lemma {:induction false} KeepBestTakesFirstBest(acc: SearchResult, cands: seq<SearchResult>)
    requires exists j :: 0 <= j < |cands| && cands[j].bestScore > acc.bestScore
    ensures exists i :: IsFirstBest(acc, cands, i) && KeepBest(acc, cands) == cands[i]
    decreases |cands|
  {
    var c0, rest := cands[0], cands[1..];
    var acc' := Better(acc, c0);
    assert cands == [c0] + rest;
    var r := KeepBest(acc, cands);
    assert r == KeepBest(acc', rest);
    if exists j :: 0 <= j < |rest| && rest[j].bestScore > acc'.bestScore {
      KeepBestTakesFirstBest(acc', rest);
      var i :| IsFirstBest(acc', rest, i) && r == rest[i];
      FirstBestShifts(acc, c0, rest, i);
      assert r == cands[i + 1];
    } else {
      KeepBestKeepsAcc(acc', rest);
      HeadIsFirstBest(acc, c0, rest);
    }
  }

  /** Folding over two lists of candidates in turn is folding over both. */
  lemma {:induction false} KeepBestAppend(acc: SearchResult, a: seq<SearchResult>, b: seq<SearchResult>)
    ensures KeepBest(acc, a + b) == KeepBest(KeepBest(acc, a), b)
    decreases |a|
  {
    if |a| == 0 {
      assert a + b == b;
    } else {
      assert (a + b)[0] == a[0];
      assert (a + b)[1..] == a[1..] + b;
      KeepBestAppend(Better(acc, a[0]), a[1..], b);
    }
  }

  /** The number of restarts the loop `for (r = 0; r < restarts; ...)` of main.cpp runs. */
  function RestartCount(cfg: SearchConfig): (n: nat)
    ensures cfg.restarts > 0 ==> n == cfg.restarts
    ensures cfg.restarts <= 0 ==> n == 0
  {
    if cfg.restarts > 0 then cfg.restarts else 0
  }

  /** The climb of restart `r`, as a result pair. */
  function Restart(member: Oracle, block: seq<bv16>, start: bv32, hillIters: int): (res: SearchResult)
    ensures res.bestScore == Score(member, res.bestID, block)
    ensures res.bestScore >= Score(member, start, block)
  {
    var c := ClimbFrom(member, block, start, hillIters);
    SearchResult(c.key, c.score)
  }

  /** The climbs of the first `n` restarts, in the order they run. */
  function Climbs(member: Oracle, block: seq<bv16>, hillIters: int, draw: nat -> bv32, n: nat): (cs: seq<SearchResult>)
    ensures |cs| == n
    ensures forall i :: 0 <= i < n ==> cs[i] == Restart(member, block, draw(i), hillIters)
  {
    seq(n, i requires 0 <= i < n => Restart(member, block, draw(i), hillIters))
  }

  /** The search. With no restart it returns `NoResult`; otherwise its score is the
      score of the key it returns, within the scorer's bounds, and at least the
      score of every start key drawn. */
  function SearchBest(member: Oracle, block: seq<bv16>, cfg: SearchConfig, draw: nat -> bv32): (res: SearchResult)
    ensures cfg.restarts <= 0 ==> res == NoResult
    ensures cfg.restarts > 0 ==> res.bestScore == Score(member, res.bestID, block)
    ensures cfg.restarts > 0 ==> |block| - res.bestScore <= res.bestScore <= |block|
    ensures forall r :: 0 <= r < cfg.restarts ==> Score(member, draw(r), block) <= res.bestScore
  {
    var cs := Climbs(member, block, cfg.hillIters, draw, RestartCount(cfg));
    var res := KeepBest(NoResult, cs);
    assert cfg.restarts > 0 ==> cs[0].bestScore >= 0;
    res
  }

  /** The search returns the climb of the earliest restart that reaches the
      highest score over all restarts. */
  lemma SearchTakesFirstBestRestart(member: Oracle, block: seq<bv16>, cfg: SearchConfig, draw: nat -> bv32)
    requires cfg.restarts > 0
    ensures exists r :: IsFirstBest(NoResult, Climbs(member, block, cfg.hillIters, draw, RestartCount(cfg)), r)
                     && SearchBest(member, block, cfg, draw) == Restart(member, block, draw(r), cfg.hillIters)
  {
    var cs := Climbs(member, block, cfg.hillIters, draw, RestartCount(cfg));
    assert cs[0].bestScore > NoResult.bestScore;
    KeepBestTakesFirstBest(NoResult, cs);
  }

  /** More restarts never make the result worse: the climbs of the shorter search
      are the first climbs of the longer one, which carries on from the shorter
      search's result over its remaining climbs. */
  lemma MoreRestartsNeverWorse(member: Oracle, block: seq<bv16>, cfg: SearchConfig, more: int, draw: nat -> bv32)
    requires cfg.restarts <= more
    ensures var n, m := RestartCount(cfg), RestartCount(SearchConfig(more, cfg.hillIters));
            && Climbs(member, block, cfg.hillIters, draw, n) <= Climbs(member, block, cfg.hillIters, draw, m)
            && SearchBest(member, block, SearchConfig(more, cfg.hillIters), draw)
               == KeepBest(SearchBest(member, block, cfg, draw), Climbs(member, block, cfg.hillIters, draw, m)[n..])
    ensures SearchBest(member, block, SearchConfig(more, cfg.hillIters), draw).bestScore
            >= SearchBest(member, block, cfg, draw).bestScore
  {
    var n, m := RestartCount(cfg), RestartCount(SearchConfig(more, cfg.hillIters));
    var all := Climbs(member, block, cfg.hillIters, draw, m);
    ClimbsPrefix(member, block, cfg.hillIters, draw, n, m);
    assert SearchBest(member, block, cfg, draw) == KeepBest(NoResult, all[..n]);
    assert SearchBest(member, block, SearchConfig(more, cfg.hillIters), draw) == KeepBest(NoResult, all);
    SplitAt(all, n);
    KeepBestAppend(NoResult, all[..n], all[n..]);
  }

  /** A list is its first `n` elements followed by the rest. */
  lemma SplitAt<T>(s: seq<T>, n: nat)
    requires n <= |s|
    ensures s == s[..n] + s[n..]
  {
  }

  /** The first `n` climbs do not depend on how many more follow. */
  lemma ClimbsPrefix(member: Oracle, block: seq<bv16>, hillIters: int, draw: nat -> bv32, n: nat, m: nat)
    requires n <= m
    ensures Climbs(member, block, hillIters, draw, n) == Climbs(member, block, hillIters, draw, m)[..n]
  {
  }

  /** The search as written in main.cpp: a loop over the restarts. */
  method SearchBestListID(member: Oracle, block: seq<bv16>, cfg: SearchConfig, draw: nat -> bv32)
    returns (res: SearchResult)
    ensures res == SearchBest(member, block, cfg, draw)
  {
    ghost var cs := Climbs(member, block, cfg.hillIters, draw, RestartCount(cfg));
    res := NoResult;
    var r := 0;
    while r < cfg.restarts
      invariant 0 <= r <= RestartCount(cfg)
      invariant KeepBest(NoResult, cs) == KeepBest(res, cs[r..])
    {
      var start := draw(r);
      var id, sc := Hillclimb(member, block, start, cfg.hillIters);
      assert cs[r] == SearchResult(id, sc);
      if sc > res.bestScore {
        res := SearchResult(id, sc);
      }
      assert cs[r..][1..] == cs[r + 1..];
      r := r + 1;
    }
    assert cs[RestartCount(cfg)..] == [];
  }
}
