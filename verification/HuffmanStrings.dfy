/** What a Huffman-coded string means (section 5.2 of RFC 7541), for any code of 257 symbols
    that is prefix-free, complete and has thirty ones for its end-of-string symbol. */
module HuffmanStrings {
  import opened Wrappers
  import opened Octets
  import opened PrefixCodes
  import opened HuffmanTable

  datatype HuffmanError = DuplicateCode | InvalidCode | EosInString | InvalidPadding

  ghost predicate AllOnes(w: Bits) {
    forall i :: 0 <= i < |w| ==> w[i] == 1
  }

  ghost predicate IsStringCode(codes: seq<Bits>) {
    && |codes| == SYMBOLS && PrefixFree(codes) && Complete(codes)
    && |codes[EOS]| == 30 && AllOnes(codes[EOS])
    && forall s :: 0 <= s < |codes| ==> |codes[s]| <= 30
  }

  // ----- bits of octets

  function BitsOfBytes(s: Bytes): Bits {
    if s == [] then [] else BitsOf(s[0], 8) + BitsOfBytes(s[1..])
  }

  function ValueOf(w: Bits): nat {
    if w == [] then 0 else 2 * ValueOf(w[..|w| - 1]) + w[|w| - 1]
  }

  lemma {:induction false} ValueBound(w: Bits)
    ensures ValueOf(w) < PowerOfTwo(|w|)
    ensures ValueOf(w) == PowerOfTwo(|w|) - 1 <==> AllOnes(w)
  {
    if w != [] {
      ValueBound(w[..|w| - 1]);
      assert AllOnes(w) <==> AllOnes(w[..|w| - 1]) && w[|w| - 1] == 1;
    }
  }

  lemma {:induction false} BitsOfValue(w: Bits)
    ensures BitsOf(ValueOf(w), |w|) == w
  {
    if w != [] {
      BitsOfValue(w[..|w| - 1]);
      assert ValueOf(w) / 2 == ValueOf(w[..|w| - 1]) && ValueOf(w) % 2 == w[|w| - 1];
    }
  }

  /** Octets from a whole number of groups of eight bits. */
  function Pack(w: Bits): Bytes
    requires |w| % 8 == 0
  {
    if w == [] then []
    else
      assert ValueOf(w[..8]) < 256 by { ValueBound(w[..8]); assert PowerOfTwo(8) == 256; }
      [ValueOf(w[..8])] + Pack(w[8..])
  }

  lemma {:induction false} BitsOfPacked(w: Bits)
    requires |w| % 8 == 0
    ensures BitsOfBytes(Pack(w)) == w && |Pack(w)| == |w| / 8
  {
    if w != [] {
      BitsOfPacked(w[8..]);
      BitsOfValue(w[..8]);
      assert Pack(w)[1..] == Pack(w[8..]);
      assert w == w[..8] + w[8..];
    }
  }

  // ----- the wire form of a string

  /** The codes of the octets of `s`, one after the other. */
  ghost function Wire(codes: seq<Bits>, s: Bytes): Bits
    requires |codes| == SYMBOLS
  {
    if s == [] then [] else codes[s[0]] + Wire(codes, s[1..])
  }

  function Ones(k: nat): (r: Bits)
    ensures |r| == k && forall i :: 0 <= i < k ==> r[i] == 1
  {
    seq(k, _ => 1)
  }

  /** `bits` is the wire form of `s` and then at most seven one-bits of padding. */
  ghost predicate IsWireOf(codes: seq<Bits>, s: Bytes, bits: Bits)
    requires |codes| == SYMBOLS
  {
    exists k :: 0 <= k <= 7 && bits == Wire(codes, s) + Ones(k)
  }

  ghost function HuffmanEncode(codes: seq<Bits>, s: Bytes): Bytes
    requires |codes| == SYMBOLS
  {
    var w := Wire(codes, s);
    Pack(w + Ones((8 - |w| % 8) % 8))
  }

  // ----- decoding bit by bit

  ghost predicate IsCode(codes: seq<Bits>, p: Bits) {
    exists s :: 0 <= s < |codes| && codes[s] == p
  }

  ghost function SymbolOf(codes: seq<Bits>, p: Bits): (s: nat)
    requires IsCode(codes, p)
    ensures s < |codes| && codes[s] == p
  {
    var s :| 0 <= s < |codes| && codes[s] == p;
    s
  }

  ghost predicate StartsSomeCode(codes: seq<Bits>, p: Bits) {
    exists s :: 0 <= s < |codes| && p <= codes[s]
  }

  function Prepend(out: Bytes, r: Result<Bytes, HuffmanError>): Result<Bytes, HuffmanError> {
    if r.Ok? then Ok(out + r.value) else r
  }

  /** Decodes `bits` after the bits `pending` of an unfinished code. */
  ghost function DecodeBits(codes: seq<Bits>, pending: Bits, bits: Bits): Result<Bytes, HuffmanError>
    requires |codes| == SYMBOLS
    decreases |bits|
  {
    if bits == [] then
      if |pending| <= 7 && AllOnes(pending) then Ok([]) else Err(InvalidPadding)
    else
      var p := pending + [bits[0]];
      if !StartsSomeCode(codes, p) then Err(InvalidCode)
      else if !IsCode(codes, p) then DecodeBits(codes, p, bits[1..])
      else if SymbolOf(codes, p) == EOS then Err(EosInString)
      else Prepend([SymbolOf(codes, p)], DecodeBits(codes, [], bits[1..]))
  }

  ghost function HuffmanText(codes: seq<Bits>, encoded: Bytes): Result<Bytes, HuffmanError>
    requires |codes| == SYMBOLS
  {
    DecodeBits(codes, [], BitsOfBytes(encoded))
  }

  /** `pending` has not passed the end of any code. */
  ghost predicate NoCodeWithin(codes: seq<Bits>, pending: Bits) {
    forall s :: 0 <= s < |codes| ==> !(codes[s] <= pending)
  }

  lemma NothingPending(codes: seq<Bits>)
    requires IsStringCode(codes)
    ensures NoCodeWithin(codes, [])
  {
  }

  lemma OneMoreBit(codes: seq<Bits>, pending: Bits, b: Bit)
    requires IsStringCode(codes) && NoCodeWithin(codes, pending)
    ensures NoCodeWithin(codes, pending + [b]) || IsCode(codes, pending + [b])
  {
    var p := pending + [b];
    forall s | 0 <= s < |codes|
      ensures codes[s] <= p <==> codes[s] == p
    {
      ExtendedPrefix(codes[s], pending, b);
    }
  }

  /** Whatever decodes was encoded that way. */
  lemma {:induction false} DecodedWasEncoded(codes: seq<Bits>, pending: Bits, bits: Bits)
    requires IsStringCode(codes)
    ensures var r := DecodeBits(codes, pending, bits); r.Ok? ==> IsWireOf(codes, r.value, pending + bits)
    decreases |bits|
  {
    var r := DecodeBits(codes, pending, bits);
    if r.Ok? {
      if bits == [] {
        assert pending + bits == Wire(codes, []) + Ones(|pending|);
      } else {
        var p := pending + [bits[0]];
        assert pending + bits == p + bits[1..];
        if IsCode(codes, p) {
          DecodedWasEncoded(codes, [], bits[1..]);
          assert [] + bits[1..] == bits[1..];
          var k :| 0 <= k <= 7 && bits[1..] == Wire(codes, r.value[1..]) + Ones(k);
          assert pending + bits == Wire(codes, r.value) + Ones(k);
        } else {
          DecodedWasEncoded(codes, p, bits[1..]);
        }
      }
    }
  }

  lemma SameStringPrefix(a: Bits, x: Bits, b: Bits, y: Bits)
    requires a + x == b + y
    ensures a <= b || b <= a
  {
    if |a| <= |b| {
      assert a == (a + x)[..|a|] == b[..|a|];
    } else {
      assert b == (b + y)[..|b|] == a[..|b|];
    }
  }

  /** One more bit along the code of symbol `c`. */
  lemma NextBitOfCode(codes: seq<Bits>, pending: Bits, bits: Bits, more: Bits, c: nat, rest: Bits)
    requires IsStringCode(codes) && NoCodeWithin(codes, pending) && c < |codes| && bits != []
    requires pending + bits + more == codes[c] + rest && |pending| < |codes[c]|
    ensures var p := pending + [bits[0]];
      && StartsSomeCode(codes, p)
      && (IsCode(codes, p) <==> |p| == |codes[c]|)
      && (|p| == |codes[c]| ==> SymbolOf(codes, p) == c && bits[1..] + more == rest)
      && (|p| < |codes[c]| ==> NoCodeWithin(codes, p))
  {
    var p := pending + [bits[0]];
    assert p + (bits[1..] + more) == codes[c] + rest;
    SameStringPrefix(p, bits[1..] + more, codes[c], rest);
    assert p <= codes[c];
    if IsCode(codes, p) {
      assert codes[SymbolOf(codes, p)] <= codes[c];
    }
    if |p| == |codes[c]| {
      assert codes[c] == p;
      assert bits[1..] + more == (p + (bits[1..] + more))[|p|..];
      assert rest == (codes[c] + rest)[|p|..];
    }
    OneMoreBit(codes, pending, bits[0]);
  }

  lemma SplitOnes(pending: Bits, bits: Bits, k: nat)
    requires pending + bits == Ones(k)
    ensures |pending| <= k && AllOnes(pending)
  {
    assert forall i :: 0 <= i < |pending| ==> pending[i] == (pending + bits)[i];
  }

  /** Padding leads towards the end-of-string code, but is too short to reach it. */
  lemma {:induction false} PaddingDecodes(codes: seq<Bits>, pending: Bits, bits: Bits, k: nat)
    requires IsStringCode(codes) && NoCodeWithin(codes, pending) && k <= 7
    requires pending + bits == Ones(k)
    ensures DecodeBits(codes, pending, bits) == Ok([])
    decreases |bits|
  {
    SplitOnes(pending, bits, k);
    if bits != [] {
      var p := pending + [bits[0]];
      assert pending + bits + Ones(30 - k) == codes[EOS] + [];
      NextBitOfCode(codes, pending, bits, Ones(30 - k), EOS, []);
      assert p + bits[1..] == pending + bits;
      PaddingDecodes(codes, p, bits[1..], k);
    }
  }

  /** Whatever is so encoded decodes to the string it encodes. */
  lemma {:induction false} EncodedDecodes(codes: seq<Bits>, pending: Bits, bits: Bits, s: Bytes, k: nat)
    requires IsStringCode(codes) && NoCodeWithin(codes, pending) && k <= 7
    requires pending + bits == Wire(codes, s) + Ones(k)
    ensures DecodeBits(codes, pending, bits) == Ok(s)
    decreases |bits|
  {
    if s == [] {
      assert pending + bits == Ones(k);
      PaddingDecodes(codes, pending, bits, k);
    } else {
      var rest := Wire(codes, s[1..]) + Ones(k);
      assert pending + bits == codes[s[0]] + rest;
      SameStringPrefix(pending, bits, codes[s[0]], rest);
      assert |pending| < |codes[s[0]]|;
      assert bits != [];
      assert pending + bits + [] == codes[s[0]] + rest;
      NextBitOfCode(codes, pending, bits, [], s[0], rest);
      var p := pending + [bits[0]];
      if IsCode(codes, p) {
        assert [] + bits[1..] == bits[1..] + [] == rest;
        NothingPending(codes);
        EncodedDecodes(codes, [], bits[1..], s[1..], k);
        assert [s[0]] + s[1..] == s;
      } else {
        assert p + bits[1..] == pending + bits;
        EncodedDecodes(codes, p, bits[1..], s, k);
      }
    }
  }

  /** The walk never meets a string of bits outside the tree. */
  lemma {:induction false} NeverInvalid(codes: seq<Bits>, pending: Bits, bits: Bits)
    requires IsStringCode(codes) && NoCodeWithin(codes, pending)
    ensures DecodeBits(codes, pending, bits) != Err(InvalidCode)
    decreases |bits|
  {
    if bits != [] {
      var p := pending + [bits[0]];
      OneMoreBit(codes, pending, bits[0]);
      assert RunsAlongSome(p, codes);
      assert StartsSomeCode(codes, p);
      NothingPending(codes);
      NeverInvalid(codes, if IsCode(codes, p) then [] else p, bits[1..]);
    }
  }

  /** Huffman decoding is exact: it returns `s` if and only if the bits are the codes of `s`
      and then at most seven ones. */
  lemma HuffmanExact(codes: seq<Bits>, encoded: Bytes, s: Bytes)
    requires IsStringCode(codes)
    ensures HuffmanText(codes, encoded) == Ok(s) <==> IsWireOf(codes, s, BitsOfBytes(encoded))
    ensures HuffmanText(codes, encoded) != Err(InvalidCode)
  {
    var bits := BitsOfBytes(encoded);
    assert [] + bits == bits;
    DecodedWasEncoded(codes, [], bits);
    NothingPending(codes);
    NeverInvalid(codes, [], bits);
    if IsWireOf(codes, s, bits) {
      var k :| 0 <= k <= 7 && bits == Wire(codes, s) + Ones(k);
      EncodedDecodes(codes, [], bits, s, k);
    }
  }

  /** Every string has an encoding, and it decodes back. */
  lemma HuffmanRoundTrip(codes: seq<Bits>, s: Bytes)
    requires IsStringCode(codes)
    ensures HuffmanText(codes, HuffmanEncode(codes, s)) == Ok(s)
  {
    var w := Wire(codes, s);
    var k := (8 - |w| % 8) % 8;
    BitsOfPacked(w + Ones(k));
    assert IsWireOf(codes, s, BitsOfBytes(HuffmanEncode(codes, s)));
    HuffmanExact(codes, HuffmanEncode(codes, s), s);
  }

  /** The code of RFC 7541 is such a code. */
  lemma TableIsStringCode()
    ensures IsStringCode(Codes(Table()))
  {
    hide CodeOf;
    TableIsPrefixCode();
    EosIsThirtyOnes();
    forall s | 0 <= s < SYMBOLS
      ensures |Codes(Table())[s]| <= 30
    {
      AtMostThirtyBits(s);
    }
  }
}
