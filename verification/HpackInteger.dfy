/** Integers with an N-bit prefix (section 5.1 of RFC 7541). */
module HpackInteger {
  import opened Wrappers
  import opened Octets
  import opened HpackErrors

  const U32_LIMIT: nat := 0x1_0000_0000

  /** Bitwise or. */
  function Or(a: nat, b: nat): nat
    decreases a + b
  {
    if a == 0 && b == 0 then 0
    else (if a % 2 == 1 || b % 2 == 1 then 1 else 0) + 2 * Or(a / 2, b / 2)
  }

  predicate ValidPrefix(n: nat) {
    1 <= n <= 8
  }

  /** 2^n - 1, the value of a full prefix. */
  function MaxPrefix(n: nat): nat
    requires ValidPrefix(n)
  {
    match n
    case 1 => 1 case 2 => 3 case 3 => 7 case 4 => 15
    case 5 => 31 case 6 => 63 case 7 => 127 case _ => 255
  }

  /** The `n` low bits of `a`: bitwise and with 2^n - 1. */
  function LowBits(a: nat, n: nat): nat {
    if n == 0 then 0 else a % 2 + 2 * LowBits(a / 2, n - 1)
  }

  lemma {:induction false} LowBitsBound(a: nat, n: nat)
    requires ValidPrefix(n)
    ensures LowBits(a, n) <= MaxPrefix(n)
    decreases n
  {
    if n == 1 {
      assert LowBits(a / 2, 0) == 0;
    } else {
      LowBitsBound(a / 2, n - 1);
    }
  }

  predicate LowBitsClear(a: nat, n: nat) {
    n == 0 || (a % 2 == 0 && LowBitsClear(a / 2, n - 1))
  }

  /** Into a mask with its low bits clear a prefix value goes unchanged, and it can be read back. */
  lemma {:induction false} MaskedPrefix(mask: nat, b: nat, n: nat)
    requires ValidPrefix(n) && LowBitsClear(mask, n) && b <= MaxPrefix(n)
    ensures Or(mask, b) == mask + b && LowBits(mask + b, n) == b
    decreases n
  {
    assert (mask + b) / 2 == mask / 2 + b / 2 && (mask + b) % 2 == b % 2;
    if n == 1 {
      OrZero(mask / 2);
    } else {
      MaskedPrefix(mask / 2, b / 2, n - 1);
    }
  }

  lemma {:induction false} OrZero(a: nat)
    ensures Or(a, 0) == a
  {
    if a != 0 {
      OrZero(a / 2);
    }
  }

  lemma {:induction false} OrOfOctets(a: nat, b: nat, n: nat)
    requires ValidPrefix(n) && a <= MaxPrefix(n) && b <= MaxPrefix(n)
    ensures Or(a, b) <= MaxPrefix(n)
    decreases n
  {
    if n == 1 {
      assert Or(0, 0) == 0;
    } else {
      OrOfOctets(a / 2, b / 2, n - 1);
    }
  }

  function OrOctets(a: Byte, b: Byte): Byte {
    OrOfOctets(a, b, 8);
    Or(a, b)
  }

  // ----- the wire form

  /** Groups of seven bits, least significant first; all but the last have their top bit set. */
  function ContinuationWire(value: nat): Bytes {
    if value < 128 then [value] else [value % 128 + 128] + ContinuationWire(value / 128)
  }

  function IntegerWire(value: nat, n: nat, mask: Byte): Bytes
    requires ValidPrefix(n)
  {
    if value < MaxPrefix(n) then [OrOctets(mask, value)]
    else [OrOctets(mask, MaxPrefix(n))] + ContinuationWire(value - MaxPrefix(n))
  }

  /** `hpack_encode_integer` on a 32-bit value. */
  method EncodeInteger(value: nat, prefixBits: nat, prefixMask: Byte) returns (r: Result<Bytes, HpackError>)
    requires value < U32_LIMIT
    ensures !ValidPrefix(prefixBits) ==> r == Err(InvalidPrefixWidth)
    ensures ValidPrefix(prefixBits) ==> r == Ok(IntegerWire(value, prefixBits, prefixMask))
  {
    if prefixBits == 0 || prefixBits > 8 {
      return Err(InvalidPrefixWidth);
    }
    var maxPrefix := MaxPrefix(prefixBits);
    if value < maxPrefix {
      return Ok([OrOctets(prefixMask, value)]);
    }
    var output: Bytes := [OrOctets(prefixMask, maxPrefix)];
    var rest: nat := value - maxPrefix;
    while rest >= 128
      invariant output + ContinuationWire(rest) == IntegerWire(value, prefixBits, prefixMask)
    {
      assert output + ContinuationWire(rest) == output + [rest % 128 + 128] + ContinuationWire(rest / 128);
      output := output + [rest % 128 + 128];
      rest := rest / 128;
    }
    r := Ok(output + [rest]);
  }

  // ----- decoding

  /** The value of the continuation octets at the front of `s`, and how many there are, when
      `k` came before them. From the fifth on they may only carry zeros. */
  function DecodeContinuation(s: Bytes, k: nat): (r: Result<(nat, nat), HpackError>)
    ensures r.Ok? ==> r.value.0 < Room(k) && 0 < r.value.1 <= |s|
  {
    if s == [] then Err(IncompleteContinuation)
    else if k >= 4 && s[0] % 128 != 0 then Err(IntegerOverflow)
    else if s[0] < 128 then Ok((s[0], 1))
    else
      match DecodeContinuation(s[1..], k + 1)
      case Ok((value, used)) => Ok((s[0] % 128 + 128 * value, 1 + used))
      case Err(e) => Err(e)
  }

  /** How many values are left for the octets after the first `k`. */
  function Room(k: nat): nat {
    match k
    case 0 => 0x1000_0000 case 1 => 0x20_0000 case 2 => 0x4000 case 3 => 0x80 case _ => 1
  }

  /** The integer at the front of `s`, and the number of octets that it takes. */
  function DecodeInteger(s: Bytes, n: nat): (r: Result<(nat, nat), HpackError>)
    ensures r.Ok? ==> ValidPrefix(n) && r.value.0 < Room(0) + MaxPrefix(n) && 0 < r.value.1 <= |s|
  {
    if s == [] then Err(IncompleteInteger)
    else if !ValidPrefix(n) then Err(InvalidPrefixWidth)
    else
      var prefix := LowBits(s[0], n);
      if prefix < MaxPrefix(n) then Ok((prefix, 1))
      else
        match DecodeContinuation(s[1..], 0)
        case Ok((value, used)) => Ok((MaxPrefix(n) + value, 1 + used))
        case Err(e) => Err(e)
  }

  /** The weight of continuation octet `k`. */
  function Weight(k: nat): nat {
    match k
    case 0 => 1 case 1 => 0x80 case 2 => 0x4000 case 3 => 0x20_0000 case _ => 0x1000_0000
  }

  /** `base + (group << 7 * k)`. */
  function AddGroup(base: nat, k: nat, group: nat): nat {
    base + Weight(k) * group
  }

  /** A result that continues from `base`, with the first octet weighing `Weight(k)`. */
  function Scaled(base: nat, k: nat, offset: nat, r: Result<(nat, nat), HpackError>): Result<(nat, nat), HpackError> {
    match r
    case Ok((value, used)) => Ok((AddGroup(base, k, value), offset + used))
    case Err(e) => Err(e)
  }

  lemma WeightStep(k: nat, digit: nat, value: nat)
    requires k >= 4 ==> digit == 0 && value == 0
    ensures Weight(k) * (digit + 128 * value) == Weight(k) * digit + Weight(k + 1) * value
  {
    match k
    case 0 => assert 1 * (digit + 128 * value) == 1 * digit + 0x80 * value;
    case 1 => assert 0x80 * (digit + 128 * value) == 0x80 * digit + 0x4000 * value;
    case 2 => assert 0x4000 * (digit + 128 * value) == 0x4000 * digit + 0x20_0000 * value;
    case 3 => assert 0x20_0000 * (digit + 128 * value) == 0x20_0000 * digit + 0x1000_0000 * value;
    case _ =>
  }

  lemma ScaledStep(base: nat, k: nat, offset: nat, s: Bytes)
    requires s != [] && (k >= 4 ==> s[0] % 128 == 0) && s[0] >= 128
    ensures Scaled(base, k, offset, DecodeContinuation(s, k)) ==
            Scaled(AddGroup(base, k, s[0] % 128), k + 1, offset + 1, DecodeContinuation(s[1..], k + 1))
  {
    hide Weight;
    match DecodeContinuation(s[1..], k + 1)
    case Err(_) =>
    case Ok((value, used)) => WeightStep(k, s[0] % 128, value);
  }

  lemma AddedWithinBounds(value: nat, k: nat, maxPrefix: nat, digit: nat)
    requires maxPrefix <= 255 && digit < 128 && (k >= 4 ==> digit == 0)
    requires value < U32_LIMIT && (k < 4 ==> value < maxPrefix + Weight(k))
    ensures AddGroup(value, k, digit) < U32_LIMIT
    ensures k + 1 < 4 ==> AddGroup(value, k, digit) < maxPrefix + Weight(k + 1)
  {
    if k == 0 {
    } else if k == 1 {
    } else if k == 2 {
    } else if k == 3 {
    }
  }

  /** The loop of `hpack_decode_integer`; the running sum never leaves 32 bits. */
  method ReadContinuation(bytes: Bytes, offset: nat, maxPrefix: nat) returns (r: Result<(nat, nat), HpackError>)
    requires offset <= |bytes| && maxPrefix <= 255
    ensures r == Scaled(maxPrefix, 0, offset, DecodeContinuation(bytes[offset..], 0))
    ensures r.Ok? ==> r.value.0 < U32_LIMIT && offset < r.value.1 <= |bytes|
  {
    var value: nat, at: nat, k: nat := maxPrefix, offset, 0;
    assert Weight(0) == 1;
    hide Weight, Room, AddGroup;
    while true
      invariant offset <= at <= |bytes|
      invariant Scaled(maxPrefix, 0, offset, DecodeContinuation(bytes[offset..], 0)) ==
                Scaled(value, k, at, DecodeContinuation(bytes[at..], k))
      invariant value < U32_LIMIT && (k < 4 ==> value < maxPrefix + Weight(k))
      decreases |bytes| - at
    {
      if at >= |bytes| {
        return Err(IncompleteContinuation);
      }
      var octet := bytes[at];
      assert bytes[at..][0] == octet && bytes[at..][1..] == bytes[at + 1..];
      if k >= 4 && octet % 128 != 0 {
        return Err(IntegerOverflow);
      }
      AddedWithinBounds(value, k, maxPrefix, octet % 128);
      if octet < 128 {
        return Ok((AddGroup(value, k, octet), at + 1));
      }
      ScaledStep(value, k, at, bytes[at..]);
      value, at, k := AddGroup(value, k, octet % 128), at + 1, k + 1;
    }
  }

  /** `hpack_decode_integer`: the result carries the value and the offset behind it. */
  method ReadInteger(bytes: Bytes, offset: nat, prefixBits: nat) returns (r: Result<(nat, nat), HpackError>)
    requires offset <= |bytes|
    ensures r == match DecodeInteger(bytes[offset..], prefixBits)
                 case Ok((value, used)) => Ok((value, offset + used))
                 case Err(e) => Err(e)
    ensures r.Ok? ==> r.value.0 < U32_LIMIT && offset < r.value.1 <= |bytes|
  {
    if offset >= |bytes| {
      return Err(IncompleteInteger);
    }
    if prefixBits == 0 || prefixBits > 8 {
      return Err(InvalidPrefixWidth);
    }
    LowBitsBound(bytes[offset], prefixBits);
    var value := LowBits(bytes[offset], prefixBits);
    if value < MaxPrefix(prefixBits) {
      return Ok((value, offset + 1));
    }
    assert bytes[offset..][1..] == bytes[offset + 1..];
    r := ReadContinuation(bytes, offset + 1, value);
  }

  // ----- round trips

  lemma {:induction false} ContinuationRoundTrip(value: nat, k: nat, suffix: Bytes)
    ensures var wire := ContinuationWire(value);
      DecodeContinuation(wire + suffix, k) == if value < Room(k) then Ok((value, |wire|)) else Err(IntegerOverflow)
    decreases value
  {
    var wire := ContinuationWire(value);
    if value >= 128 {
      ContinuationRoundTrip(value / 128, k + 1, suffix);
      assert (wire + suffix)[1..] == ContinuationWire(value / 128) + suffix;
    }
  }

  /** Prefix integers come back exactly, whatever follows, if they are below
      2^28 + 2^n - 1; the decoder refuses all larger ones as an overflow. */
  lemma IntegerRoundTrip(value: nat, n: nat, mask: Byte, suffix: Bytes)
    requires ValidPrefix(n) && LowBitsClear(mask, n)
    ensures var wire := IntegerWire(value, n, mask);
      DecodeInteger(wire + suffix, n) ==
      if value < Room(0) + MaxPrefix(n) then Ok((value, |wire|)) else Err(IntegerOverflow)
  {
    hide MaxPrefix, LowBits, LowBitsClear, Or;
    var wire := IntegerWire(value, n, mask);
    var prefix := if value < MaxPrefix(n) then value else MaxPrefix(n);
    MaskedPrefix(mask, prefix, n);
    if value >= MaxPrefix(n) {
      ContinuationRoundTrip(value - MaxPrefix(n), 0, suffix);
      assert (wire + suffix)[1..] == ContinuationWire(value - MaxPrefix(n)) + suffix;
    }
  }

  /** The first octet of the wire form is the mask plus a prefix value. */
  lemma FirstOctet(value: nat, n: nat, mask: Byte)
    requires ValidPrefix(n) && LowBitsClear(mask, n)
    ensures var wire := IntegerWire(value, n, mask);
      |wire| > 0 && wire[0] == mask + (if value < MaxPrefix(n) then value else MaxPrefix(n))
  {
    MaskedPrefix(mask, if value < MaxPrefix(n) then value else MaxPrefix(n), n);
  }

  // ----- every form of an integer

  predicate AreGroups(groups: seq<nat>) {
    groups != [] && forall i :: 0 <= i < |groups| ==> groups[i] < 128
  }

  /** Groups of seven bits on the wire: all but the last have their top bit set. */
  function GroupsWire(groups: seq<nat>): Bytes
    requires AreGroups(groups)
  {
    if |groups| == 1 then [groups[0]] else [128 + groups[0]] + GroupsWire(groups[1..])
  }

  /** The number that they stand for, the least significant group first. */
  function GroupsValue(groups: seq<nat>): nat {
    if groups == [] then 0 else groups[0] + 128 * GroupsValue(groups[1..])
  }

  /** Only the first four groups may be other than zero. */
  predicate Short(groups: seq<nat>, k: nat) {
    forall i :: 0 <= i < |groups| && k + i >= 4 ==> groups[i] == 0
  }

  lemma {:induction false} GroupsAreRead(groups: seq<nat>, k: nat, suffix: Bytes)
    requires AreGroups(groups)
    ensures DecodeContinuation(GroupsWire(groups) + suffix, k)
        == if Short(groups, k) then Ok((GroupsValue(groups), |groups|)) else Err(IntegerOverflow)
    decreases |groups|
  {
    var s := GroupsWire(groups) + suffix;
    if |groups| == 1 {
      assert groups[1..] == [];
    } else {
      assert s[1..] == GroupsWire(groups[1..]) + suffix;
      assert forall i :: 0 <= i < |groups[1..]| ==> groups[1..][i] == groups[i + 1];
      GroupsAreRead(groups[1..], k + 1, suffix);
      assert Short(groups, k) <==> (k >= 4 ==> groups[0] == 0) && Short(groups[1..], k + 1) by {
        assert forall i :: 0 < i < |groups| ==> groups[i] == groups[1..][i - 1];
      }
    }
  }

  lemma {:induction false} UnfinishedGroups(s: Bytes, k: nat)
    requires forall i :: 0 <= i < |s| ==> s[i] >= 128
    ensures DecodeContinuation(s, k)
        == Err(if forall i :: 0 <= i < |s| && k + i >= 4 ==> s[i] == 128 then IncompleteContinuation
               else IntegerOverflow)
    decreases |s|
  {
    if s != [] && !(k >= 4 && s[0] % 128 != 0) {
      assert forall i :: 0 <= i < |s[1..]| ==> s[1..][i] == s[i + 1];
      UnfinishedGroups(s[1..], k + 1);
      assert forall i :: 0 < i < |s| ==> s[i] == s[1..][i - 1];
    }
  }

  lemma BehindFullPrefix(first: Byte, n: nat, rest: Bytes)
    requires ValidPrefix(n) && LowBits(first, n) == MaxPrefix(n)
    ensures DecodeInteger([first] + rest, n) ==
            match DecodeContinuation(rest, 0)
            case Ok((value, used)) => Ok((MaxPrefix(n) + value, 1 + used))
            case Err(e) => Err(e)
  {
    hide LowBits, MaxPrefix, DecodeContinuation;
    assert ([first] + rest)[1..] == rest;
  }

  /** An integer may be written with more groups than it needs: behind a full prefix, any groups are
      read as their number, unless one from the fifth on is not zero; and while all octets announce
      another one, nothing is read. */
  lemma LongFormsAreRead(first: Byte, n: nat, groups: seq<nat>, suffix: Bytes, open: Bytes)
    requires ValidPrefix(n) && LowBits(first, n) == MaxPrefix(n) && AreGroups(groups)
    requires forall i :: 0 <= i < |open| ==> open[i] >= 128
    ensures DecodeInteger([first] + GroupsWire(groups) + suffix, n)
        == if forall i :: 4 <= i < |groups| ==> groups[i] == 0
           then Ok((MaxPrefix(n) + GroupsValue(groups), 1 + |groups|)) else Err(IntegerOverflow)
    ensures DecodeInteger([first] + open, n).Err?
  {
    hide LowBits, MaxPrefix, DecodeContinuation, GroupsWire, GroupsValue, DecodeInteger;
    GroupsAreRead(groups, 0, suffix);
    UnfinishedGroups(open, 0);
    assert [first] + GroupsWire(groups) + suffix == [first] + (GroupsWire(groups) + suffix);
    BehindFullPrefix(first, n, GroupsWire(groups) + suffix);
    BehindFullPrefix(first, n, open);
  }
}
