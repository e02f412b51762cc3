/** The pure part of `main` in main.cpp: decode the file's bytes, reject a file
    shorter than one block, cut consecutive non-overlapping blocks, search each
    one with the fixed configuration (250 restarts, 8 passes), and keep the best
    result over all blocks. File reading, argument parsing, the average score and
    all printing are outside this model; the generator streams, one per block
    (main.cpp seeds block `bi` with `0xC0FFEE123456789 + bi`), are a parameter. */
module Driver {
  import opened Prp16
  import opened Scoring
  import opened Search
  import LittleEndian

  /** The configuration `main` sets before searching. */
  const MainConfig := SearchConfig(250, 8)

  /** `(q + 1) * d > n` and `q * d <= n` for `q = n / d`, and multiplication by a
      positive number is monotone. */
  lemma DivBounds(n: nat, d: nat, m: nat)
    requires d > 0
    requires m <= n / d
    ensures m * d <= n
    ensures (n / d + 1) * d > n
  {
    var q := n / d;
    assert n == q * d + n % d;
    assert m * d <= q * d;
  }

  /** The number of blocks tested, `min(blocksToTest, size / blockLen)`: no more
      than asked for, all of them inside the data, and as many as fit when fewer
      than asked for fit. */
  function MaxBlocks(size: nat, blockLen: nat, blocksToTest: nat): (m: nat)
    requires blockLen > 0
    ensures m <= blocksToTest
    ensures m * blockLen <= size
    ensures m < blocksToTest ==> (m + 1) * blockLen > size
  {
    var fit := size / blockLen;
    DivBounds(size, blockLen, fit);
    DivBounds(size, blockLen, if blocksToTest < fit then blocksToTest else fit);
    if blocksToTest < fit then blocksToTest else fit
  }

  /** Every tested block lies inside the data. */
  lemma TestedBlockInBounds(size: nat, blockLen: nat, blocksToTest: nat, bi: nat)
    requires blockLen > 0
    requires bi < MaxBlocks(size, blockLen, blocksToTest)
    ensures bi * blockLen + blockLen <= size
  {
    BlockFits(blockLen, bi, MaxBlocks(size, blockLen, blocksToTest));
  }

  /** Block number `bi`: the `blockLen` values starting at `bi * blockLen`. */
  function Block(data: seq<bv16>, blockLen: nat, bi: nat): (b: seq<bv16>)
    requires bi * blockLen + blockLen <= |data|
    ensures |b| == blockLen
    ensures forall j :: 0 <= j < blockLen ==> b[j] == data[bi * blockLen + j]
  {
    data[bi * blockLen..bi * blockLen + blockLen]
  }

  /** A block before block `m` ends no later than block `m - 1`. */
  lemma BlockFits(blockLen: nat, bi: nat, m: nat)
    requires bi < m
    ensures bi * blockLen + blockLen <= m * blockLen
  {
    assert bi * blockLen + blockLen == (bi + 1) * blockLen;
    assert (bi + 1) * blockLen <= m * blockLen;
  }

  /** The first `m` blocks laid end to end. */
  function Tiles(data: seq<bv16>, blockLen: nat, m: nat): seq<bv16>
    requires m * blockLen <= |data|
  {
    if m == 0 then []
    else
      BlockFits(blockLen, m - 1, m);
      Tiles(data, blockLen, m - 1) + Block(data, blockLen, m - 1)
  }

  /** The blocks do not overlap and leave no gap: laid end to end, the first `m`
      blocks are exactly the first `m * blockLen` values. */
  lemma {:induction false} BlocksTile(data: seq<bv16>, blockLen: nat, m: nat)
    requires m * blockLen <= |data|
    ensures Tiles(data, blockLen, m) == data[..m * blockLen]
  {
    if m > 0 {
      BlockFits(blockLen, m - 1, m);
      BlocksTile(data, blockLen, m - 1);
      var lo := (m - 1) * blockLen;
      assert lo + blockLen == m * blockLen;
      assert data[..m * blockLen] == data[..lo] + data[lo..lo + blockLen];
    }
  }

  /** Why the driver stops early: the file is shorter than one block (exit code 3
      of main.cpp), or the block length is zero. main.cpp has no check for the
      second: a zero block length passes its guard and is then divided by, which is
      undefined behaviour; `ZeroBlockLen` stands for that division. */
  datatype RunError = FileTooSmall | ZeroBlockLen

  /** What `main` reports: the number of decoded values, the result of every
      tested block, and the best result over all of them. */
  datatype Report = Report(count: nat, results: seq<SearchResult>, bestEver: SearchResult)

  datatype Outcome = Completed(report: Report) | Failed(error: RunError)

  /** The guard as written: only `data.size() < blockLen` is rejected. */
  predicate AdmitsAsWritten(size: nat, blockLen: nat) {
    !(size < blockLen)
  }

  /** The guard with the zero block length rejected too: whatever it admits has a
      positive block length and at least one whole block of data. */
  predicate Admits(size: nat, blockLen: nat)
    ensures Admits(size, blockLen) ==> blockLen > 0 && size / blockLen >= 1
  {
    0 < blockLen <= size
  }

  /** The guard as written lets a zero block length through, after which
      `data.size() / blockLen` divides by zero; the corrected guard stops it. */
  lemma AsWrittenAdmitsZeroBlockLen(size: nat)
    ensures AdmitsAsWritten(size, 0)
    ensures !Admits(size, 0)
  {
  }

  /** The driver: decode, check, search every tested block, keep the best. */
  function Run(bytes: seq<bv8>, blockLen: nat, blocksToTest: nat, streams: nat -> nat -> bv32): (o: Outcome)
    ensures blockLen == 0 <==> o == Failed(ZeroBlockLen)
    ensures o == Failed(FileTooSmall) <==> 0 < blockLen && |bytes| / 2 < blockLen
    ensures o.Completed? ==>
              && o.report.count == |bytes| / 2
              && |o.report.results| == MaxBlocks(|bytes| / 2, blockLen, blocksToTest)
  {
    var data := LittleEndian.Decode(bytes);
    if blockLen == 0 then Failed(ZeroBlockLen)
    else if !Admits(|data|, blockLen) then Failed(FileTooSmall)
    else
      var m := MaxBlocks(|data|, blockLen, blocksToTest);
      var results := seq(m, bi requires 0 <= bi < m =>
                              TestedBlockInBounds(|data|, blockLen, blocksToTest, bi);
                              SearchBest(HasValue, Block(data, blockLen, bi), MainConfig, streams(bi)));
      Completed(Report(|data|, results, KeepBest(NoResult, results)))
  }

  /** The search of one tested block: the block lies inside the data, and the
      result is a key with that key's own score, at least half the block. */
  lemma TestedBlockResult(data: seq<bv16>, blockLen: nat, blocksToTest: nat, draw: nat -> bv32, bi: nat)
    requires blockLen > 0
    requires bi < MaxBlocks(|data|, blockLen, blocksToTest)
    ensures bi * blockLen + blockLen <= |data|
    ensures var res := SearchBest(HasValue, Block(data, blockLen, bi), MainConfig, draw);
            && res.bestScore == Score(HasValue, res.bestID, Block(data, blockLen, bi))
            && 2 * res.bestScore >= blockLen
  {
    TestedBlockInBounds(|data|, blockLen, blocksToTest, bi);
  }

  /** Every tested block's result is a key together with that key's own score for
      that block, at least half the block; the best-ever result is one of them
      and no block's result beats it. */
  lemma RunResults(bytes: seq<bv8>, blockLen: nat, blocksToTest: nat, streams: nat -> nat -> bv32)
    requires Run(bytes, blockLen, blocksToTest, streams).Completed?
    ensures var data := LittleEndian.Decode(bytes);
            var rep := Run(bytes, blockLen, blocksToTest, streams).report;
            && blockLen > 0
            && (forall bi :: 0 <= bi < |rep.results| ==>
                  && bi * blockLen + blockLen <= |data|
                  && rep.results[bi].bestScore == Score(HasValue, rep.results[bi].bestID, Block(data, blockLen, bi))
                  && 2 * rep.results[bi].bestScore >= blockLen)
            && (forall bi :: 0 <= bi < |rep.results| ==> rep.results[bi].bestScore <= rep.bestEver.bestScore)
            && (|rep.results| > 0 ==> rep.bestEver in rep.results)
  {
    var data := LittleEndian.Decode(bytes);
    var rep := Run(bytes, blockLen, blocksToTest, streams).report;
    RunReport(bytes, blockLen, blocksToTest, streams);
    forall bi | 0 <= bi < |rep.results|
      ensures bi * blockLen + blockLen <= |data|
      ensures rep.results[bi].bestScore == Score(HasValue, rep.results[bi].bestID, Block(data, blockLen, bi))
      ensures 2 * rep.results[bi].bestScore >= blockLen
    {
      TestedBlockResult(data, blockLen, blocksToTest, streams(bi), bi);
    }
    if |rep.results| > 0 {
      assert rep.results[0].bestScore > NoResult.bestScore;
    }
  }

  /** What a completed run's report holds: the search result of each tested block
      in block order, and the best of them as the best-ever result. */
  lemma RunReport(bytes: seq<bv8>, blockLen: nat, blocksToTest: nat, streams: nat -> nat -> bv32)
    requires Run(bytes, blockLen, blocksToTest, streams).Completed?
    ensures var data := LittleEndian.Decode(bytes);
            var rep := Run(bytes, blockLen, blocksToTest, streams).report;
            && blockLen > 0
            && |rep.results| == MaxBlocks(|data|, blockLen, blocksToTest)
            && rep.bestEver == KeepBest(NoResult, rep.results)
            && (forall bi :: 0 <= bi < |rep.results| ==>
                  && bi * blockLen + blockLen <= |data|
                  && rep.results[bi] == SearchBest(HasValue, Block(data, blockLen, bi), MainConfig, streams(bi)))
  {
    var data := LittleEndian.Decode(bytes);
    forall bi | 0 <= bi < MaxBlocks(|data|, blockLen, blocksToTest)
      ensures bi * blockLen + blockLen <= |data|
    {
      TestedBlockInBounds(|data|, blockLen, blocksToTest, bi);
    }
  }
}
