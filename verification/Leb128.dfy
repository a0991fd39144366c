/** Unsigned LEB128 as the WASM fixture generator writes it (`src/bin/gen_test_wasm.rs`), against
    the integer grammar of section 5.2.2 of the WebAssembly Core Specification. */
module Leb128 {
  import opened Arithmetic
  import opened Wrappers

  type Byte = b: nat | b < 256 witness 0

  const TWO_TO_32: nat := 0x1_0000_0000

  // ----- Writing -----

  function Encode(v: nat): (s: seq<Byte>)
    ensures |s| >= 1
  {
    if v < 128 then [v] else [v % 128 + 128] + Encode(v / 128)
  }

  lemma EncodeStep(v: nat)
    ensures Encode(v) == if v / 128 == 0 then [v % 128] else [v % 128 + 128] + Encode(v / 128)
  {
  }

  function EncodeName(name: seq<Byte>): seq<Byte> {
    Encode(|name| % TWO_TO_32) + name
  }

  class Buffer {
    var bytes: seq<Byte>

    constructor ()
      ensures bytes == []
    {
      bytes := [];
    }

    /** Appends the low seven bits at a time, marking every byte but the last. */
    method WriteLebU32(v: nat)
      requires v < TWO_TO_32
      modifies this
      ensures bytes == old(bytes) + Encode(v)
    {
      hide Encode;
      var value := v;
      ghost var written: seq<Byte> := [];
      while true
        invariant bytes == old(bytes) + written
        invariant written + Encode(value) == Encode(v)
        decreases value
      {
        EncodeStep(value);
        var byte := value % 128;
        ghost var rest := Encode(value / 128);
        value := value / 128;
        if value != 0 {
          byte := byte + 128;
        }
        assert value != 0 ==> written + ([byte] + rest) == written + [byte] + rest;
        bytes := bytes + [byte];
        written := written + [byte];
        if value == 0 {
          break;
        }
      }
    }

    /** A length-prefixed byte string; the length is cast to 32 bits. */
    method WriteName(name: seq<Byte>)
      modifies this
      ensures bytes == old(bytes) + EncodeName(name)
    {
      WriteLebU32(|name| % TWO_TO_32);
      bytes := bytes + name;
    }
  }

  // ----- Reading, as the standard defines it -----

  datatype Decoded<T> = Decoded(value: T, length: nat)

  /** `uN`: a byte below 2^7 and 2^N ends the number; a byte of at least 2^7 continues it with
      seven bits fewer, as long as more than seven remain. */
  function DecodeU(bits: nat, s: seq<Byte>): (r: Option<Decoded<nat>>)
    ensures r.Some? ==> 1 <= r.value.length <= |s|
    decreases |s|
  {
    if s == [] then None
    else if s[0] < 128 then
      if s[0] < Pow2(bits) then Some(Decoded(s[0], 1)) else None
    else if bits > 7 then
      match DecodeU(bits - 7, s[1..])
      case None => None
      case Some(rest) => Some(Decoded(128 * rest.value + (s[0] - 128), rest.length + 1))
    else None
  }

  function DecodeName(s: seq<Byte>): Option<Decoded<seq<Byte>>> {
    match DecodeU(32, s)
    case None => None
    case Some(n) =>
      if n.length + n.value <= |s| then
        Some(Decoded(s[n.length..n.length + n.value], n.length + n.value))
      else None
  }

  // ----- Writing then reading -----

  lemma SevenBits(bits: nat)
    requires bits >= 7
    ensures Pow2(bits) == 128 * Pow2(bits - 7)
  {
    Pow2Sum(7, bits - 7);
    assert Pow2(7) == 128 by { assert Pow2(4) == 16; }
  }

  /** Whatever follows it, an encoded number reads back as itself and takes exactly its bytes. */
  lemma {:induction false} EncodeThenDecode(bits: nat, v: nat, rest: seq<Byte>)
    requires v < Pow2(bits)
    ensures DecodeU(bits, Encode(v) + rest) == Some(Decoded(v, |Encode(v)|))
    decreases v
  {
    var s := Encode(v) + rest;
    if v >= 128 {
      if bits <= 7 {
        SevenBits(7);
        Pow2Monotone(bits, 7);
        assert false;
      }
      SevenBits(bits);
      assert s[1..] == Encode(v / 128) + rest;
      EncodeThenDecode(bits - 7, v / 128, rest);
    }
  }

  lemma {:induction false} EncodeLength(v: nat, k: nat)
    requires k >= 1 && v < Pow2(7 * k)
    ensures |Encode(v)| <= k
    decreases k
  {
    SevenBits(7 * k);
    assert 7 * k - 7 == 7 * (k - 1);
    if v >= 128 && k > 1 {
      EncodeLength(v / 128, k - 1);
    }
  }

  lemma {:induction false} DecodedBound(bits: nat, s: seq<Byte>)
    requires DecodeU(bits, s).Some?
    ensures DecodeU(bits, s).value.value < Pow2(7 * DecodeU(bits, s).value.length)
    decreases |s|
  {
    var d := DecodeU(bits, s).value;
    if s[0] < 128 {
      SevenBits(7);
    } else {
      DecodedBound(bits - 7, s[1..]);
      SevenBits(7 * d.length);
      assert 7 * d.length - 7 == 7 * (d.length - 1);
    }
  }

  /** No reading of a number is shorter than its encoding, and only the encoding is that short. */
  lemma {:induction false} EncodingIsShortest(bits: nat, s: seq<Byte>)
    requires DecodeU(bits, s).Some?
    ensures var d := DecodeU(bits, s).value;
            && |Encode(d.value)| <= d.length
            && (|Encode(d.value)| == d.length <==> s[..d.length] == Encode(d.value))
    decreases |s|
  {
    var d := DecodeU(bits, s).value;
    DecodedBound(bits, s);
    EncodeLength(d.value, d.length);
    if s[0] >= 128 {
      EncodingIsShortest(bits - 7, s[1..]);
      assert s[..d.length] == [s[0]] + s[1..][..d.length - 1];
      assert d.value / 128 == DecodeU(bits - 7, s[1..]).value.value;
    }
  }

  /** Every 32-bit value takes at most five bytes and reads back. */
  lemma U32RoundTrip(v: nat, rest: seq<Byte>)
    requires v < TWO_TO_32
    ensures DecodeU(32, Encode(v) + rest) == Some(Decoded(v, |Encode(v)|))
    ensures |Encode(v)| <= 5
  {
    assert Pow2(32) == TWO_TO_32 by {
      Pow2Sum(8, 8);
      Pow2Sum(16, 16);
      assert Pow2(4) == 16;
    }
    Pow2Monotone(32, 35);
    EncodeThenDecode(32, v, rest);
    EncodeLength(v, 5);
  }

  /** A name reads back as itself exactly when its length fits 32 bits; a longer one loses its
      tail, because only the length's low 32 bits are written. */
  lemma NameRoundTrip(name: seq<Byte>, rest: seq<Byte>)
    ensures DecodeName(EncodeName(name) + rest).Some?
    ensures var d := DecodeName(EncodeName(name) + rest).value;
            && d.value == name[..|name| % TWO_TO_32]
            && (d.value == name <==> |name| < TWO_TO_32)
            && (|name| < TWO_TO_32 ==> d.length == |EncodeName(name)|)
  {
    var n := |name| % TWO_TO_32;
    assert EncodeName(name) + rest == Encode(n) + (name + rest);
    U32RoundTrip(n, name + rest);
  }
}
