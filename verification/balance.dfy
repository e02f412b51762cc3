/** The balance promise of the membership oracle: `Prp(., k)` is a permutation of
    the 16-bit values, so exactly half of them (32768) are members of every list
    and exactly half are not. Nothing here is computed at run time; it is the
    structural guarantee that replaces storing the lists. */
module Balance {
  import opened Prp16

  function Pow2(w: nat): (p: nat)
    ensures p >= 1
  {
    if w == 0 then 1 else 2 * Pow2(w - 1)
  }

  /** The image of a set under `f`. */
  function Image<T, U>(s: set<T>, f: T -> U): set<U> {
    set x | x in s :: f(x)
  }

  predicate InjectiveOn<T, U(==)>(s: set<T>, f: T -> U) {
    forall x, y :: x in s && y in s && f(x) == f(y) ==> x == y
  }

  /** An injective map neither merges nor drops elements. */
  lemma {:induction false} ImageCard<T, U>(s: set<T>, f: T -> U)
    requires InjectiveOn(s, f)
    ensures |Image(s, f)| == |s|
    decreases |s|
  {
    if |s| != 0 {
      var a :| a in s;
      var s' := s - {a};
      ImageCard(s', f);
      assert Image(s, f) == Image(s', f) + {f(a)};
      assert f(a) !in Image(s', f);
    }
  }

  /** The map that sets the bits of `b`. */
  function OrWith(b: bv16): bv16 -> bv16 {
    x => x | b
  }

  /** The 16-bit values below 2^w, built one bit position at a time: the values
      below 2^(w-1), and the same values with bit w-1 set. The width `w` is a
      `bv16` so that `1 << (w - 1)` and `x >> w` need no conversion from an
      integer, which the verifier handles poorly. */
  function Below(w: bv16): set<bv16>
    requires w <= 16
    decreases w
  {
    if w == 0 then {0}
    else
      var s := Below(w - 1);
      s + Image(s, OrWith(1 << (w - 1)))
  }

  /** Setting bit w-1 of a value below 2^(w-1) gives a value below 2^w that is
      not below 2^(w-1). */
  lemma SetTopBit(y: bv16, w: bv16)
    requires 0 < w <= 16
    requires y >> (w - 1) == 0
    ensures (y | (1 << (w - 1))) >> w == 0
    ensures (y | (1 << (w - 1))) >> (w - 1) != 0
  {
  }

  /** A value below 2^w that is not below 2^(w-1) is a value below 2^(w-1) with
      bit w-1 set. */
  lemma ClearTopBit(x: bv16, w: bv16)
    requires 0 < w <= 16
    requires x >> w == 0 && x >> (w - 1) != 0
    ensures (x ^ (1 << (w - 1))) >> (w - 1) == 0
    ensures (x ^ (1 << (w - 1))) | (1 << (w - 1)) == x
  {
  }

  /** Values below 2^(w-1) are below 2^w. */
  lemma BelowIsMonotone(x: bv16, w: bv16)
    requires 0 < w <= 16
    requires x >> (w - 1) == 0
    ensures x >> w == 0
  {
  }

  /** One direction of the induction step of `BelowMembers`, for `w == v + 1`:
      a member of `Below(w)` is below 2^w. */
  lemma MemberIsBelow(v: bv16, x: bv16)
    requires v < 16
    requires forall y: bv16 :: y in Below(v) <==> y >> v == 0
    requires x in Below(v + 1)
    ensures x >> (v + 1) == 0
  {
    var w := v + 1;
    var c: bv16 := 1 << v;
    var s := Below(v);
    assert Below(w) == s + Image(s, OrWith(c));
    if x in s {
      BelowIsMonotone(x, w);
    } else {
      var y :| y in s && OrWith(c)(y) == x;
      SetTopBit(y, w);
    }
  }

  /** The other direction, for `w == v + 1`: a value below 2^w is a member of
      `Below(w)`. */
  lemma BelowIsMember(v: bv16, x: bv16)
    requires v < 16
    requires forall y: bv16 :: y in Below(v) <==> y >> v == 0
    requires x >> (v + 1) == 0
    ensures x in Below(v + 1)
  {
    var w := v + 1;
    var c: bv16 := 1 << v;
    assert Below(w) == Below(v) + Image(Below(v), OrWith(c));
    if x >> v != 0 {
      ClearTopBit(x, w);
      var y := x ^ c;
      assert y in Below(v);
      assert OrWith(c)(y) == x;
    }
  }

  /** `Below(w)` holds exactly the values whose bits w and above are clear. */
  lemma {:induction false} BelowMembers(w: bv16)
    requires w <= 16
    ensures forall x: bv16 :: x in Below(w) <==> x >> w == 0
    decreases w
  {
    if w > 0 {
      BelowMembers(w - 1);
      forall x: bv16
        ensures x in Below(w) <==> x >> w == 0
      {
        if x in Below(w) {
          MemberIsBelow(w - 1, x);
        }
        if x >> w == 0 {
          BelowIsMember(w - 1, x);
        }
      }
    }
  }

  /** Setting bit w-1 is injective on `Below(w - 1)` and lands outside it. */
  lemma SetBitSplits(w: bv16)
    requires 0 < w <= 16
    ensures InjectiveOn(Below(w - 1), OrWith(1 << (w - 1)))
    ensures Below(w - 1) !! Image(Below(w - 1), OrWith(1 << (w - 1)))
  {
    var c: bv16 := 1 << (w - 1);
    var s := Below(w - 1);
    BelowMembers(w - 1);
    forall x, y | x in s && y in s && OrWith(c)(x) == OrWith(c)(y)
      ensures x == y
    {
      assert x >> (w - 1) == 0 && y >> (w - 1) == 0;
    }
    forall x | x in Image(s, OrWith(c))
      ensures x !in s
    {
      var y :| y in s && OrWith(c)(y) == x;
      assert y >> (w - 1) == 0;
    }
  }

  /** There are 2^w values below 2^w. */
  lemma {:induction false} BelowCard(w: bv16)
    requires w <= 16
    ensures |Below(w)| == Pow2(w as int)
    decreases w
  {
    if w > 0 {
      BelowCard(w - 1);
      SetBitSplits(w);
      ImageCard(Below(w - 1), OrWith(1 << (w - 1)));
      assert (w - 1) as int == w as int - 1;
    }
  }

  /** The bit width of the values. */
  const Width: bv16 := 16

  /** Every 16-bit value, 65536 of them. */
  function Universe(): set<bv16> {
    Below(Width)
  }

  /** The values whose MSB is clear, 32768 of them. */
  function LowerHalf(): set<bv16> {
    Below(Width - 1)
  }

  lemma UniverseMembers()
    ensures forall x: bv16 :: x in Universe()
    ensures forall y: bv16 :: y in LowerHalf() <==> y & MsbMask == 0
  {
    BelowMembers(Width);
    BelowMembers(Width - 1);
  }

  lemma UniverseCard()
    ensures |Universe()| == 65536
    ensures |LowerHalf()| == 32768
  {
    BelowCard(Width);
    BelowCard(Width - 1);
    assert (Width - 1) as int == 15;
    assert Pow2(8) == 256;
  }

  /** The members of list `k` among all 16-bit values. */
  function Members(k: bv32): set<bv16> {
    set x | x in Universe() && HasValue(k, x)
  }

  /** The values that are not members of list `k`. */
  function NonMembers(k: bv32): set<bv16> {
    set x | x in Universe() && !HasValue(k, x)
  }

  /** Bijectivity over the whole domain: the images of all 16-bit values under
      `Prp(., k)` are all 16-bit values, each hit once. */
  lemma PrpPermutesUniverse(k: bv32)
    ensures Image(Universe(), x => Prp(x, k)) == Universe()
    ensures InjectiveOn(Universe(), x => Prp(x, k))
  {
    UniverseMembers();
    forall y: bv16 | y in Universe()
      ensures y in Image(Universe(), x => Prp(x, k))
    {
      PrpUnprp(y, k);
      assert Unprp(y, k) in Universe();
    }
    forall x1, x2 | Prp(x1, k) == Prp(x2, k)
      ensures x1 == x2
    {
      PrpInjective(x1, x2, k);
    }
  }

  /** The members of list `k` are the preimages of the lower half. */
  lemma MembersArePreimages(k: bv32)
    ensures Members(k) == Image(LowerHalf(), y => Unprp(y, k))
  {
    UniverseMembers();
    var inv := y => Unprp(y, k);
    forall x: bv16
      ensures x in Members(k) <==> x in Image(LowerHalf(), inv)
    {
      if HasValue(k, x) {
        UnprpPrp(x, k);
        assert Prp(x, k) in LowerHalf();
      }
      if x in Image(LowerHalf(), inv) {
        var y :| y in LowerHalf() && inv(y) == x;
        PrpUnprp(y, k);
      }
    }
  }

  /** Balance, member side: every list holds exactly 32768 of the 65536 values. */
  lemma ExactlyHalfAreMembers(k: bv32)
    ensures |Members(k)| == 32768
  {
    var inv := y => Unprp(y, k);
    MembersArePreimages(k);
    forall y1, y2 | y1 in LowerHalf() && y2 in LowerHalf() && inv(y1) == inv(y2)
      ensures y1 == y2
    {
      PrpUnprp(y1, k);
      PrpUnprp(y2, k);
    }
    ImageCard(LowerHalf(), inv);
    UniverseCard();
  }

  /** Balance, other side: every list leaves out exactly 32768 values. */
  lemma ExactlyHalfAreNonMembers(k: bv32)
    ensures |NonMembers(k)| == 32768
  {
    ExactlyHalfAreMembers(k);
    UniverseCard();
    assert NonMembers(k) == Universe() - Members(k);
  }
}
