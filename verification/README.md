# imaginarylistsearch — a Dafny model of the list-ID search

The program treats every 32-bit key as the name of an "imaginary list": the set of
16-bit values whose image under a keyed 4-round Feistel permutation (`prp16`) has
its most significant bit clear. Because the permutation is a bijection, every such
list holds exactly half of the 65536 values, and no list is ever stored. Given a
file of little-endian 16-bit values, the program cuts it into consecutive blocks
and, for each block, searches for the key whose list best explains the block:
random restarts followed by a greedy single-bit-flip hill-climb, scored by how
many values of the block fall on the majority side of the key's split.

The model follows main.cpp module by module:

- `Prp16` — the round function `F`, the Feistel network and its inverse, the
  permutation `Prp` with its inverse `Unprp`, the loop of `prp16` as written, and
  the membership test `HasValue`. All arithmetic is on bit-vectors, so the 32-bit
  wrap-around of the multiplications and the 8-bit truncations are exact.
- `Balance` — the structural promise behind the membership test: `Prp(., k)`
  permutes all 65536 values, so every list has exactly 32768 members and 32768
  non-members.
- `Scoring` — `score_list`: the member count, its complement, and `max` of the two.
- `HillClimb` — the `hillclimb` lambda of `searchBestListID`: first-improvement
  passes over the 32 bits, at most `hillIters` passes, stopping after a pass that
  did not move.
- `Search` — the restart loop of `searchBestListID`: keep the first climb that
  reaches the highest score; `(0, -1)` when there are no restarts.
- `LittleEndian` — the decode loop of `read_u16_le_file`, with a matching encoder.
- `Driver` — the pure part of `main`: the size guard, `maxBlocks`, the block
  slicing, one search per block and the best-ever result.

Scoring, hill-climb and search use the membership test only as a black box, so
they take it as a parameter (`Scoring.Oracle`); `Driver.Run` instantiates it with
`Prp16.HasValue`, as main.cpp does. The random generator (`mt19937_64` with a
uniform 32-bit distribution) is replaced by a parameter giving the start key of
each restart (`draw` in `Search`, one stream per block in `Driver.Run`).

Two edge cases pass without an error: `searchBestListID` returns key 0 with
score -1 when `restarts <= 0` (`Search.NoResult`), and `main` does not reject
`blockLen == 0` but goes on to divide by it (see Findings).

## Model

| member | source | states |
|---|---|---|
| Prp16.KeyByte | main.cpp:15 | byte `round` of the key is the key shifted right by `8 * round` bits and masked to its low byte |
| Prp16.XorShiftHalves | main.cpp:17 | the xor-shift by 16 keeps the high 16 bits and xors them into the low 16 |
| Prp16.MixStep | main.cpp:16-17 | no ensures of its own: one multiply by 0x45D9F3B wrapping modulo 2^32, then the xor-shift, whose effect `Prp16.XorShiftHalves` states |
| Prp16.F | main.cpp:11-21 | no ensures of its own: `Prp16.KeyXorWidens` states that the byte it mixes is main.cpp's 32-bit working value after line 15, and `Prp16.FDependsOnlyOnKeyByte` that a round sees the key only through its key byte |
| Prp16.KeyXorWidens | main.cpp:14-15 | xor-ing the key byte into the zero-extended right half at 32 bits gives the zero-extension of the 8-bit xor that `F` mixes |
| Prp16.FDependsOnlyOnKeyByte | main.cpp:11-21 | round `round` of the network sees the key only through byte `round` of it: two keys with the same byte there give the same round function |
| Prp16.Round | main.cpp:30-32 | one round moves the right half to the left, and the old left half can be read back from the new right half and the round function |
| Prp16.Unround | main.cpp:29-33 | one Feistel round can be undone: running the round on the undone halves gives back the input halves |
| Prp16.UnroundRound | main.cpp:29-33 | undoing a round after running it gives back the halves it started from |
| Prp16.JoinSplit | main.cpp:25-26 | cutting a value into its high and low byte and putting them back together gives the value |
| Prp16.SplitJoin | main.cpp:34 | the bytes recovered from a joined pair are the bytes that were joined |
| Prp16.NetworkSnoc | main.cpp:29-33 | running one more round at the end is running the shorter network and then that round |
| Prp16.InverseAfterNetwork | main.cpp:28-33 | for any sequence of round functions the inverse network undoes the network |
| Prp16.NetworkAfterInverse | main.cpp:28-33 | for any sequence of round functions the network undoes the inverse network |
| Prp16.Prp | main.cpp:23-35 | the permutation of every value under every key is undone by the inverse network |
| Prp16.UnprpPrp | main.cpp:23-35 | the inverse permutation recovers every input of `prp16` for every key |
| Prp16.PrpUnprp | main.cpp:23-35 | every 16-bit value is an output of `prp16` for every key (onto) |
| Prp16.PrpInjective | main.cpp:10 | two inputs have the same image under the same key exactly when they are equal |
| Prp16.RunRounds | main.cpp:28-33 | the in-place loop over `L` and `R` computes the Feistel network of its round functions |
| Prp16.PrpLoop | main.cpp:23-35 | `prp16` as written computes the permutation, and the inverse maps its output back to its input |
| Prp16.HasValue | main.cpp:38-42 | a value is a member of list `listID` exactly when its image under `prp16` is below 0x8000 |
| Prp16.HasValueIsLowerHalf | main.cpp:37-42 | a value is a member exactly when its image is below 0x8000 |
| Balance.PrpPermutesUniverse | main.cpp:10 | under every key the permutation maps the 65536 values one to one onto the 65536 values |
| Balance.MembersArePreimages | main.cpp:37-42 | the members of list `k` are exactly the preimages of the values with a clear MSB |
| Balance.ExactlyHalfAreMembers | main.cpp:10 | every list has exactly 32768 members |
| Balance.ExactlyHalfAreNonMembers | main.cpp:37-42 | every list leaves out exactly 32768 values |
| Balance.UniverseCard | main.cpp:37-42 | there are 65536 sixteen-bit values, 32768 of them with a clear MSB |
| Scoring.CountMembers | main.cpp:47-48 | the member count of a block never exceeds the block's length |
| Scoring.CountsPartition | main.cpp:48-50 | members and non-members of a block together account for every value of it |
| Scoring.CountIsMemberPositions | main.cpp:47-48 | the counting loop counts exactly the positions whose value is a member |
| Scoring.Score | main.cpp:45-51 | the score is one of the two side counts and at least the other, lies in `[n - score, n]`, is at least `ceil(n/2)`, and is 0 for an empty block |
| Scoring.ScoreIgnoresPolarity | main.cpp:49-50 | two keys that split a block in opposite ways score the same on it |
| Scoring.ScoreList | main.cpp:45-51 | the counting loop followed by `max` computes the score |
| HillClimb.Flip | main.cpp:84 | a candidate differs from the current key in exactly the one bit tried |
| HillClimb.TryBit | main.cpp:84-90 | a candidate replaces the current key exactly when it scores strictly higher, and then its score becomes the current score and the pass counts as improved |
| HillClimb.Scan | main.cpp:80-91 | over bits `b..31` the score never drops and stays the score of the current key, the pass is improved exactly when the score rose, and a pass that did not move saw no better neighbour |
| HillClimb.Passes | main.cpp:78-94 | the climb never lowers the score, moves only to strictly better keys, uses at most the allowed passes (none exactly when none are allowed), and ends at a local optimum when it stops early |
| HillClimb.PassBudget | main.cpp:78 | the pass loop allows exactly `hillIters` passes when it is positive and none otherwise |
| HillClimb.ClimbFrom | main.cpp:74-96 | the climb returns a key with its own score, never below the start key's score and strictly above it when the key changed, after at most `hillIters` passes, at a local optimum when it stopped early |
| HillClimb.PassesStep | main.cpp:78-94 | a pass that does not improve ends the climb there; an improving pass continues with one pass less |
| HillClimb.Pass | main.cpp:80-91 | the inner loop over the 32 bits performs exactly one scan of all bits |
| HillClimb.Hillclimb | main.cpp:74-96 | the lambda as written, with its early `break`, returns the climb's key and score |
| Search.KeepBest | main.cpp:98-106 | the kept result never scores below the initial one, is the initial one or one of the candidates, and no candidate scores above it |
| Search.KeepBestKeepsAcc | main.cpp:102 | when no candidate scores strictly higher, the initial result is kept |
| Search.KeepBestTakesFirstBest | main.cpp:102-105 | when some candidate beats the initial result, the kept one is the earliest candidate reaching the highest score (ties go to the earlier restart) |
| Search.KeepBestAppend | main.cpp:99-106 | keeping the best over two runs of candidates in turn is keeping the best over both |
| Search.RestartCount | main.cpp:99 | the restart loop runs exactly `restarts` times when it is positive and not at all otherwise |
| Search.Restart | main.cpp:100-101 | each restart's result is a key with its own score, at least the score of its start key |
| Search.SearchBest | main.cpp:65-109 | with no restart the result is `(0, -1)`; otherwise it is a key with its own score, within the score bounds, and no drawn start key scores above it |
| Search.SearchTakesFirstBestRestart | main.cpp:98-108 | with at least one restart the result is the climb of the earliest restart reaching the highest score over all restarts |
| Search.MoreRestartsNeverWorse | main.cpp:99-106 | with more restarts over the same draws, the shorter search's climbs are the first climbs of the longer one, the longer search carries on from the shorter one's result, and its best score is never lower |
| Search.SearchBestListID | main.cpp:65-109 | the restart loop as written returns the search result |
| LittleEndian.WordValue | main.cpp:120 | a word's value is its low byte plus 256 times its high byte |
| LittleEndian.Decode | main.cpp:117-121 | decoding yields half as many values as there are bytes (a trailing odd byte is dropped) |
| LittleEndian.DecodeAt | main.cpp:119-120 | value `i` is made of bytes `2i` (low) and `2i + 1` (high) |
| LittleEndian.DecodeValues | main.cpp:120 | value `i` equals `bytes[2i] + 256 * bytes[2i + 1]` |
| LittleEndian.DecodeEncode | main.cpp:117-121 | decoding the little-endian encoding of any values gives the values back |
| LittleEndian.EncodeDecode | main.cpp:117-121 | encoding the decoded values gives back the bytes, without a trailing odd byte |
| LittleEndian.ReadU16LE | main.cpp:117-121 | the decode loop as written computes the decoding |
| Driver.MaxBlocks | main.cpp:155 | the number of tested blocks is at most `blocksToTest`, they all fit in the data, and when fewer are tested it is because no further block fits |
| Driver.TestedBlockInBounds | main.cpp:155-162 | every tested block lies inside the data |
| Driver.Block | main.cpp:162 | block `bi` has `blockLen` values, the ones starting at `bi * blockLen` |
| Driver.BlockFits | main.cpp:161-162 | a block before block `m` ends no later than where block `m` starts |
| Driver.BlocksTile | main.cpp:161-162 | the tested blocks laid end to end are exactly the first `maxBlocks * blockLen` values: no overlap, no gap |
| Driver.AsWrittenAdmitsZeroBlockLen | main.cpp:141-144 | the size guard as written lets a zero block length through to the division, which the corrected guard rejects |
| Driver.Admits | main.cpp:141-155 | the corrected guard admits only a positive block length with at least one whole block of data |
| Driver.Run | main.cpp:132-170 | a zero block length and a file shorter than one block are the two failures, each exactly when its condition holds; otherwise one result per tested block |
| Driver.RunResults | main.cpp:157-170 | each block's result is a key with its own score on that block, at least half the block; the best-ever result is one of them and no block's result beats it |
| Driver.RunReport | main.cpp:155-170 | a completed run holds one search result per tested block, in block order, each block inside the data, and the best of them as the best-ever result |
| Driver.TestedBlockResult | main.cpp:161-164 | the search of a tested block returns a key with its own score on that block, at least half the block |

## Left out

- File reading: opening and reading the file, and exit code 2 when it cannot be read, are I/O; the model starts from the file's bytes.
- Argument parsing: the usage message and exit code 1, `std::stoul` and the defaults 64 and 50 are outside the model; `Driver.Run` takes `blockLen` and `blocksToTest` as arguments.
- Printing: every message, the hex key output and the exit codes are outside the model; the outcomes of `main` are `Driver.Outcome`.
- The average score: it is floating point and only printed (it is NaN when no block is tested).
- The random generator: `mt19937_64` and `uniform_int_distribution` are replaced by the start-key parameters `draw` and `streams`; the per-block seed `0xC0FFEE123456789 + bi` is only reflected in there being one stream per block.
- `SearchConfig.tryAllBits`: no code reads it; every pass tries all 32 bits.
- The `SearchConfig` defaults 200 and 6: `main` overrides them with 250 and 8 (`Driver.MainConfig`), so the defaults never reach the search.
- Scoring.Score: does not model the conversion of the block length `n` from `size_t` to `int` or an `int` overflow of the count, because blocks of `2^31` values and more are outside the program's use; counts are unbounded integers.
- Driver.MaxBlocks: does not model a `size_t` overflow of `bi * blockLen`, which needs blocks beyond the address space.
- Driver.Run: the division by zero that main.cpp reaches with a zero block length is undefined behaviour; the model gives it the outcome `Failed(ZeroBlockLen)` instead.
- Driver.Run: the per-block searches are stated through `Search.SearchBest` (the function) rather than the loop `Search.SearchBestListID`, which is proved equal to it.

## Findings

| source | as written | input that shows it | evidently intended | confidence | as-written member | corrected member |
|---|---|---|---|---|---|---|
| main.cpp:141-155 | the guard rejects only `data.size() < blockLen`, after which `data.size() / blockLen` is computed | a readable file with `blockLen` given as `0` on the command line: the guard passes and the division is by zero | reject a zero block length before dividing | not executed | Driver.AsWrittenAdmitsZeroBlockLen | Driver.Admits |
