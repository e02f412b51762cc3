/** The keyed 16-bit permutation of main.cpp: a 4-round Feistel network over the
    high and low byte of a value, its inverse network, and the membership oracle
    built on top of it. All arithmetic is on bit-vectors, so the wrap-around of the
    `uint32_t` multiplications of main.cpp and the `uint8_t` truncations are exact. */
module Prp16 {

  /** Number of Feistel rounds. */
  const Rounds: nat := 4

  /** The odd multiplier of the round function's mixing step. */
  const Multiplier: bv32 := 0x45D9F3B

  /** The MSB of a 16-bit value; a value is a member when this bit of its image is clear. */
  const MsbMask: bv16 := 0x8000

  /** Byte number `round` of the key (byte 0 is the least significant one): the
      key shifted right by `8 * round` bits, masked to its low byte. */
  function KeyByte(k: bv32, round: nat): (b: bv8)
    requires round < Rounds
    ensures b as bv32 == (k >> (8 * round as bv32)) & 0xFF
  {
    var shifted :=
      if round == 0 then k
      else if round == 1 then k >> 8
      else if round == 2 then k >> 16
      else k >> 24;
    (shifted & 0xFF) as bv8
  }

  /** Xor-shift by 16. */
  function XorShift(y: bv32): bv32 {
    y ^ (y >> 16)
  }

  /** The xor-shift keeps the high 16 bits and folds them into the low 16. */
  lemma XorShiftHalves(y: bv32)
    ensures XorShift(y) >> 16 == y >> 16
    ensures XorShift(y) & 0xFFFF == (y & 0xFFFF) ^ (y >> 16)
  {
  }

  /** One multiply / xor-shift-16 step, wrapping modulo 2^32. */
  function MixStep(x: bv32): bv32 {
    XorShift(x * Multiplier)
  }

  /** The mixing part of the round function on the 32-bit working value: two
      mixing steps, then keep the low 8 bits. */
  function Mix32(x: bv32): bv8 {
    (MixStep(MixStep(x)) & 0xFF) as bv8
  }

  /** The mixing part on a byte, zero-extended to 32 bits first. */
  function RoundMix(v: bv8): bv8 {
    Mix32(v as bv32)
  }

  /** The round function: the key byte xor-ed into the right half, then mixed. */
  function F(r: bv8, k: bv32, round: nat): bv8
    requires round < Rounds
  {
    RoundMix(r ^ KeyByte(k, round))
  }

  /** main.cpp xors the key byte into the zero-extended right half at 32 bits;
      both operands are below 256, so this is the zero-extended xor of the two
      bytes that `F` mixes. */
  lemma KeyXorWidens(r: bv8, k: bv32, round: nat)
    requires round < Rounds
    ensures (r ^ KeyByte(k, round)) as bv32 == (r as bv32) ^ ((k >> (8 * round as bv32)) & 0xFF)
  {
  }

  /** Round `round` sees the key only through its key byte: two keys that agree on
      that byte give the same round function. */
  lemma FDependsOnlyOnKeyByte(r: bv8, k1: bv32, k2: bv32, round: nat)
    requires round < Rounds
    requires KeyByte(k1, round) == KeyByte(k2, round)
    ensures F(r, k1, round) == F(r, k2, round)
  {
    var v := r ^ KeyByte(k1, round);
    assert v == r ^ KeyByte(k2, round);
    assert F(r, k1, round) == RoundMix(v);
  }

  /** A 16-bit value split into its high (left) and low (right) byte. */
  datatype Halves = Halves(left: bv8, right: bv8)

  function Split(x: bv16): (h: Halves) {
    Halves((x >> 8) as bv8, (x & 0xFF) as bv8)
  }

  function Join(h: Halves): (x: bv16) {
    ((h.left as bv16) << 8) | (h.right as bv16)
  }

  /** Splitting and joining are inverse to each other. */
  lemma JoinSplit(x: bv16)
    ensures Join(Split(x)) == x
  {
  }

  lemma SplitJoin(h: Halves)
    ensures Split(Join(h)) == h
  {
  }

  /** One Feistel round with round function `f`: `(L, R) := (R, L ^ f(R))`. */
  function Round(h: Halves, f: bv8 -> bv8): (r: Halves)
    ensures r.left == h.right
    ensures r.right ^ f(r.left) == h.left
  {
    Halves(h.right, h.left ^ f(h.right))
  }

  /** The inverse of one round: `(L, R) := (R ^ f(L), L)`. Whatever `f` is, it
      undoes `Round`, which is why the network is a permutation even though the
      round function itself is not. */
  function Unround(h: Halves, f: bv8 -> bv8): (p: Halves)
    ensures Round(p, f) == h
  {
    Halves(h.right ^ f(h.left), h.left)
  }

  lemma UnroundRound(h: Halves, f: bv8 -> bv8)
    ensures Unround(Round(h, f), f) == h
  {
  }

  /** The rounds `fs[0]`, `fs[1]`, ... applied in that order. */
  function Network(h: Halves, fs: seq<bv8 -> bv8>): Halves
    decreases |fs|
  {
    if |fs| == 0 then h else Network(Round(h, fs[0]), fs[1..])
  }

  /** The inverse rounds of `fs`, last round first. */
  function InverseNetwork(h: Halves, fs: seq<bv8 -> bv8>): Halves
    decreases |fs|
  {
    if |fs| == 0 then h else InverseNetwork(Unround(h, fs[|fs| - 1]), fs[..|fs| - 1])
  }

  /** Running the last round after the others is running them all. */
  lemma {:induction false} NetworkSnoc(h: Halves, fs: seq<bv8 -> bv8>, f: bv8 -> bv8)
    ensures Network(h, fs + [f]) == Round(Network(h, fs), f)
    decreases |fs|
  {
    if |fs| > 0 {
      assert (fs + [f])[1..] == fs[1..] + [f];
      NetworkSnoc(Round(h, fs[0]), fs[1..], f);
    }
  }

  /** The inverse network undoes the network, for any round functions. */
  lemma {:induction false} InverseAfterNetwork(h: Halves, fs: seq<bv8 -> bv8>)
    ensures InverseNetwork(Network(h, fs), fs) == h
    decreases |fs|
  {
    if |fs| > 0 {
      var init, last := fs[..|fs| - 1], fs[|fs| - 1];
      assert fs == init + [last];
      NetworkSnoc(h, init, last);
      UnroundRound(Network(h, init), last);
      InverseAfterNetwork(h, init);
    }
  }

  /** The network undoes the inverse network, for any round functions. */
  lemma {:induction false} NetworkAfterInverse(h: Halves, fs: seq<bv8 -> bv8>)
    ensures Network(InverseNetwork(h, fs), fs) == h
    decreases |fs|
  {
    if |fs| > 0 {
      var init, last := fs[..|fs| - 1], fs[|fs| - 1];
      assert fs == init + [last];
      var p := Unround(h, last);
      NetworkAfterInverse(p, init);
      NetworkSnoc(InverseNetwork(p, init), init, last);
    }
  }

  /** The four round functions a key selects, round 0 first. */
  function Schedule(k: bv32): (fs: seq<bv8 -> bv8>)
    ensures |fs| == Rounds
    ensures forall round, r :: 0 <= round < Rounds ==> fs[round](r) == F(r, k, round)
  {
    seq(Rounds, round requires 0 <= round < Rounds => (r: bv8) => F(r, k, round))
  }

  /** The keyed permutation: split into bytes, run the four rounds, join. */
  function Prp(x: bv16, k: bv32): (y: bv16)
    ensures Unprp(y, k) == x
  {
    var h := Network(Split(x), Schedule(k));
    SplitJoin(h);
    InverseAfterNetwork(Split(x), Schedule(k));
    JoinSplit(x);
    Join(h)
  }

  /** The inverse permutation: split, undo the four rounds in reverse order, join. */
  function Unprp(y: bv16, k: bv32): bv16 {
    Join(InverseNetwork(Split(y), Schedule(k)))
  }

  /** `Unprp(., k)` undoes `Prp(., k)`, so `Prp(., k)` is injective for every key. */
  lemma UnprpPrp(x: bv16, k: bv32)
    ensures Unprp(Prp(x, k), k) == x
  {
  }

  /** `Prp(., k)` undoes `Unprp(., k)`, so `Prp(., k)` is onto for every key. */
  lemma PrpUnprp(y: bv16, k: bv32)
    ensures Prp(Unprp(y, k), k) == y
  {
    SplitJoin(InverseNetwork(Split(y), Schedule(k)));
    NetworkAfterInverse(Split(y), Schedule(k));
    JoinSplit(y);
  }

  /** No two values collide under the same key. */
  lemma PrpInjective(x1: bv16, x2: bv16, k: bv32)
    ensures Prp(x1, k) == Prp(x2, k) <==> x1 == x2
  {
    UnprpPrp(x1, k);
    UnprpPrp(x2, k);
  }

  /** Running the schedule from round `r` is running round `r`, then the rest. */
  lemma NetworkStep(h: Halves, fs: seq<bv8 -> bv8>, r: nat)
    requires r < |fs|
    ensures Network(h, fs[r..]) == Network(Round(h, fs[r]), fs[r + 1..])
  {
    assert fs[r..][1..] == fs[r + 1..];
  }

  /** The round loop of `prp16` in main.cpp on the two bytes `L` and `R`: each
      round sets `L, R` to `R, L ^ fs[round](R)`. */
  method RunRounds(L0: bv8, R0: bv8, fs: seq<bv8 -> bv8>) returns (L: bv8, R: bv8)
    ensures Halves(L, R) == Network(Halves(L0, R0), fs)
  {
    L, R := L0, R0;
    var r := 0;
    while r < |fs|
      invariant 0 <= r <= |fs|
      invariant Network(Halves(L, R), fs[r..]) == Network(Halves(L0, R0), fs)
    {
      NetworkStep(Halves(L, R), fs, r);
      var t := L ^ fs[r](R);
      L := R;
      R := t;
      r := r + 1;
    }
    assert fs[r..] == [];
  }

  /** The permutation as written in main.cpp: split into `L` and `R`, run the
      rounds with round function `F(., key, round)`, and join `L` above `R`. */
  method PrpLoop(x: bv16, key: bv32) returns (y: bv16)
    ensures y == Prp(x, key)
    ensures Unprp(y, key) == x
  {
    var L: bv8 := (x >> 8) as bv8;
    var R: bv8 := (x & 0xFF) as bv8;
    assert Halves(L, R) == Split(x);
    L, R := RunRounds(L, R, Schedule(key));
    y := ((L as bv16) << 8) | (R as bv16);
    assert y == Join(Halves(L, R));
    UnprpPrp(x, key);
  }

  /** Membership of `x` in the list named `listID`: the MSB of its image is clear. */
  function HasValue(listID: bv32, x: bv16): (member: bool)
    ensures member <==> Prp(x, listID) < 0x8000
  {
    Prp(x, listID) & MsbMask == 0
  }

  /** Membership is the same as the image lying in the lower half of the 16-bit range. */
  lemma HasValueIsLowerHalf(listID: bv32, x: bv16)
    ensures HasValue(listID, x) <==> Prp(x, listID) < 0x8000
  {
  }
}
