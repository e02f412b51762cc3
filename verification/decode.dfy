/** The pure part of `read_u16_le_file` in main.cpp: the file's bytes, taken two
    at a time, as little-endian 16-bit values; a trailing odd byte is dropped. */
module LittleEndian {
  import opened Prp16

  /** The 16-bit value whose low byte is `lo` and whose high byte is `hi`. */
  function Word(lo: bv8, hi: bv8): (w: bv16) {
    Join(Halves(hi, lo))
  }

  lemma WidenValue(b: bv8)
    ensures (b as bv16) as int == b as int
  {
  }

  lemma ValueOfBytes(x: bv16)
    ensures x as int == 256 * ((x >> 8) as int) + (x & 0xFF) as int
  {
  }

  /** The numeric value of a word: `lo + 256 * hi`. */
  lemma WordValue(lo: bv8, hi: bv8)
    ensures Word(lo, hi) as int == lo as int + 256 * hi as int
  {
    var w := Word(lo, hi);
    ValueOfBytes(w);
    assert w >> 8 == hi as bv16;
    assert w & 0xFF == lo as bv16;
    WidenValue(lo);
    WidenValue(hi);
  }

  /** The bytes of `bytes`, paired up little-endian. */
  function Decode(bytes: seq<bv8>): (out: seq<bv16>)
    ensures |out| == |bytes| / 2
  {
    if |bytes| < 2 then [] else [Word(bytes[0], bytes[1])] + Decode(bytes[2..])
  }

  /** The `i`-th decoded value is the word of bytes `2i` and `2i + 1`. */
  lemma {:induction false} DecodeAt(bytes: seq<bv8>, i: nat)
    requires i < |bytes| / 2
    ensures Decode(bytes)[i] == Word(bytes[2 * i], bytes[2 * i + 1])
  {
    if i > 0 {
      DecodeAt(bytes[2..], i - 1);
      assert bytes[2..][2 * (i - 1)] == bytes[2 * i];
      assert bytes[2..][2 * (i - 1) + 1] == bytes[2 * i + 1];
    }
  }

  /** Each decoded value is `bytes[2i] + 256 * bytes[2i + 1]`. */
  lemma {:induction false} DecodeValues(bytes: seq<bv8>, i: nat)
    requires i < |bytes| / 2
    ensures Decode(bytes)[i] as int == bytes[2 * i] as int + 256 * bytes[2 * i + 1] as int
  {
    var lo, hi := bytes[2 * i], bytes[2 * i + 1];
    DecodeAt(bytes, i);
    WordValue(lo, hi);
  }

  /** The matching writer: each value as its low byte followed by its high byte. */
  function Encode(values: seq<bv16>): (bytes: seq<bv8>)
    ensures |bytes| == 2 * |values|
  {
    if |values| == 0 then []
    else
      var h := Split(values[0]);
      [h.right, h.left] + Encode(values[1..])
  }

  /** Decoding peels off the first two bytes. */
  lemma DecodeCons(lo: bv8, hi: bv8, rest: seq<bv8>)
    ensures Decode([lo, hi] + rest) == [Word(lo, hi)] + Decode(rest)
  {
    assert ([lo, hi] + rest)[2..] == rest;
  }

  /** The two bytes written for a value decode to that value. */
  lemma WordOfSplit(x: bv16)
    ensures Word(Split(x).right, Split(x).left) == x
  {
    JoinSplit(x);
  }

  /** Decoding what was encoded gives the values back. */
  lemma {:induction false} DecodeEncode(values: seq<bv16>)
    ensures Decode(Encode(values)) == values
  {
    if |values| > 0 {
      var h := Split(values[0]);
      var tail := Encode(values[1..]);
      assert Encode(values) == [h.right, h.left] + tail;
      DecodeCons(h.right, h.left, tail);
      DecodeEncode(values[1..]);
      WordOfSplit(values[0]);
      assert Decode(Encode(values)) == [values[0]] + values[1..];
    }
  }

  /** Encoding what was decoded gives the bytes back, without a trailing odd byte. */
  lemma {:induction false} EncodeDecode(bytes: seq<bv8>)
    ensures Encode(Decode(bytes)) == bytes[..|bytes| / 2 * 2]
  {
    if |bytes| >= 2 {
      var w := Word(bytes[0], bytes[1]);
      var rest := Decode(bytes[2..]);
      assert Decode(bytes) == [w] + rest;
      assert ([w] + rest)[1..] == rest;
      SplitJoin(Halves(bytes[1], bytes[0]));
      EncodeDecode(bytes[2..]);
      assert bytes[2..][..(|bytes| - 2) / 2 * 2] == bytes[2..|bytes| / 2 * 2];
      assert bytes[..|bytes| / 2 * 2] == [bytes[0], bytes[1]] + bytes[2..|bytes| / 2 * 2];
    }
  }

  /** The decode loop as written in main.cpp. */
  method ReadU16LE(bytes: seq<bv8>) returns (out: seq<bv16>)
    ensures out == Decode(bytes)
  {
    var n := |bytes| / 2;
    out := [];
    var i := 0;
    while i < n
      invariant 0 <= i <= n
      invariant |out| == i
      invariant forall j :: 0 <= j < i ==> out[j] == Word(bytes[2 * j], bytes[2 * j + 1])
    {
      var w := (bytes[2 * i] as bv16) | ((bytes[2 * i + 1] as bv16) << 8);
      assert w == Word(bytes[2 * i], bytes[2 * i + 1]);
      out := out + [w];
      i := i + 1;
    }
    forall j | 0 <= j < n
      ensures out[j] == Decode(bytes)[j]
    {
      DecodeAt(bytes, j);
    }
  }
}
