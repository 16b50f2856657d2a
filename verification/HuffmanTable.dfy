/** The static Huffman code of HPACK (appendix B of RFC 7541), and the proof that its 257 codes
    are the leaves of one full binary tree, which makes the code prefix-free and complete. */
module HuffmanTable {
  import opened PrefixCodes

  datatype HuffmanCode = HuffmanCode(code: nat, bits: nat)

  /** Symbol 256 marks the end of the string; 0 to 255 are the octets. */
  const EOS: nat := 256
  const SYMBOLS: nat := 257

  // ----- the table, sixteen symbols a row

  function Row0(i: nat): HuffmanCode {
    match i
    case 0 => HuffmanCode(0x1ff8, 13) case 1 => HuffmanCode(0x7fffd8, 23)
    case 2 => HuffmanCode(0xfffffe2, 28) case 3 => HuffmanCode(0xfffffe3, 28)
    case 4 => HuffmanCode(0xfffffe4, 28) case 5 => HuffmanCode(0xfffffe5, 28)
    case 6 => HuffmanCode(0xfffffe6, 28) case 7 => HuffmanCode(0xfffffe7, 28)
    case 8 => HuffmanCode(0xfffffe8, 28) case 9 => HuffmanCode(0xffffea, 24)
    case 10 => HuffmanCode(0x3ffffffc, 30) case 11 => HuffmanCode(0xfffffe9, 28)
    case 12 => HuffmanCode(0xfffffea, 28) case 13 => HuffmanCode(0x3ffffffd, 30)
    case 14 => HuffmanCode(0xfffffeb, 28) case _ => HuffmanCode(0xfffffec, 28)
  }

  function Row1(i: nat): HuffmanCode {
    match i
    case 0 => HuffmanCode(0xfffffed, 28) case 1 => HuffmanCode(0xfffffee, 28)
    case 2 => HuffmanCode(0xfffffef, 28) case 3 => HuffmanCode(0xffffff0, 28)
    case 4 => HuffmanCode(0xffffff1, 28) case 5 => HuffmanCode(0xffffff2, 28)
    case 6 => HuffmanCode(0x3ffffffe, 30) case 7 => HuffmanCode(0xffffff3, 28)
    case 8 => HuffmanCode(0xffffff4, 28) case 9 => HuffmanCode(0xffffff5, 28)
    case 10 => HuffmanCode(0xffffff6, 28) case 11 => HuffmanCode(0xffffff7, 28)
    case 12 => HuffmanCode(0xffffff8, 28) case 13 => HuffmanCode(0xffffff9, 28)
    case 14 => HuffmanCode(0xffffffa, 28) case _ => HuffmanCode(0xffffffb, 28)
  }

  function Row2(i: nat): HuffmanCode {
    match i
    case 0 => HuffmanCode(0x14, 6) case 1 => HuffmanCode(0x3f8, 10)
    case 2 => HuffmanCode(0x3f9, 10) case 3 => HuffmanCode(0xffa, 12)
    case 4 => HuffmanCode(0x1ff9, 13) case 5 => HuffmanCode(0x15, 6)
    case 6 => HuffmanCode(0xf8, 8) case 7 => HuffmanCode(0x7fa, 11)
    case 8 => HuffmanCode(0x3fa, 10) case 9 => HuffmanCode(0x3fb, 10)
    case 10 => HuffmanCode(0xf9, 8) case 11 => HuffmanCode(0x7fb, 11)
    case 12 => HuffmanCode(0xfa, 8) case 13 => HuffmanCode(0x16, 6)
    case 14 => HuffmanCode(0x17, 6) case _ => HuffmanCode(0x18, 6)
  }

  function Row3(i: nat): HuffmanCode {
    match i
    case 0 => HuffmanCode(0x0, 5) case 1 => HuffmanCode(0x1, 5)
    case 2 => HuffmanCode(0x2, 5) case 3 => HuffmanCode(0x19, 6)
    case 4 => HuffmanCode(0x1a, 6) case 5 => HuffmanCode(0x1b, 6)
    case 6 => HuffmanCode(0x1c, 6) case 7 => HuffmanCode(0x1d, 6)
    case 8 => HuffmanCode(0x1e, 6) case 9 => HuffmanCode(0x1f, 6)
    case 10 => HuffmanCode(0x5c, 7) case 11 => HuffmanCode(0xfb, 8)
    case 12 => HuffmanCode(0x7ffc, 15) case 13 => HuffmanCode(0x20, 6)
    case 14 => HuffmanCode(0xffb, 12) case _ => HuffmanCode(0x3fc, 10)
  }

  function Row4(i: nat): HuffmanCode {
    match i
    case 0 => HuffmanCode(0x1ffa, 13) case 1 => HuffmanCode(0x21, 6)
    case 2 => HuffmanCode(0x5d, 7) case 3 => HuffmanCode(0x5e, 7)
    case 4 => HuffmanCode(0x5f, 7) case 5 => HuffmanCode(0x60, 7)
    case 6 => HuffmanCode(0x61, 7) case 7 => HuffmanCode(0x62, 7)
    case 8 => HuffmanCode(0x63, 7) case 9 => HuffmanCode(0x64, 7)
    case 10 => HuffmanCode(0x65, 7) case 11 => HuffmanCode(0x66, 7)
    case 12 => HuffmanCode(0x67, 7) case 13 => HuffmanCode(0x68, 7)
    case 14 => HuffmanCode(0x69, 7) case _ => HuffmanCode(0x6a, 7)
  }

  function Row5(i: nat): HuffmanCode {
    match i
    case 0 => HuffmanCode(0x6b, 7) case 1 => HuffmanCode(0x6c, 7)
    case 2 => HuffmanCode(0x6d, 7) case 3 => HuffmanCode(0x6e, 7)
    case 4 => HuffmanCode(0x6f, 7) case 5 => HuffmanCode(0x70, 7)
    case 6 => HuffmanCode(0x71, 7) case 7 => HuffmanCode(0x72, 7)
    case 8 => HuffmanCode(0xfc, 8) case 9 => HuffmanCode(0x73, 7)
    case 10 => HuffmanCode(0xfd, 8) case 11 => HuffmanCode(0x1ffb, 13)
    case 12 => HuffmanCode(0x7fff0, 19) case 13 => HuffmanCode(0x1ffc, 13)
    case 14 => HuffmanCode(0x3ffc, 14) case _ => HuffmanCode(0x22, 6)
  }

  function Row6(i: nat): HuffmanCode {
    match i
    case 0 => HuffmanCode(0x7ffd, 15) case 1 => HuffmanCode(0x3, 5)
    case 2 => HuffmanCode(0x23, 6) case 3 => HuffmanCode(0x4, 5)
    case 4 => HuffmanCode(0x24, 6) case 5 => HuffmanCode(0x5, 5)
    case 6 => HuffmanCode(0x25, 6) case 7 => HuffmanCode(0x26, 6)
    case 8 => HuffmanCode(0x27, 6) case 9 => HuffmanCode(0x6, 5)
    case 10 => HuffmanCode(0x74, 7) case 11 => HuffmanCode(0x75, 7)
    case 12 => HuffmanCode(0x28, 6) case 13 => HuffmanCode(0x29, 6)
    case 14 => HuffmanCode(0x2a, 6) case _ => HuffmanCode(0x7, 5)
  }

  function Row7(i: nat): HuffmanCode {
    match i
    case 0 => HuffmanCode(0x2b, 6) case 1 => HuffmanCode(0x76, 7)
    case 2 => HuffmanCode(0x2c, 6) case 3 => HuffmanCode(0x8, 5)
    case 4 => HuffmanCode(0x9, 5) case 5 => HuffmanCode(0x2d, 6)
    case 6 => HuffmanCode(0x77, 7) case 7 => HuffmanCode(0x78, 7)
    case 8 => HuffmanCode(0x79, 7) case 9 => HuffmanCode(0x7a, 7)
    case 10 => HuffmanCode(0x7b, 7) case 11 => HuffmanCode(0x7ffe, 15)
    case 12 => HuffmanCode(0x7fc, 11) case 13 => HuffmanCode(0x3ffd, 14)
    case 14 => HuffmanCode(0x1ffd, 13) case _ => HuffmanCode(0xffffffc, 28)
  }

  function Row8(i: nat): HuffmanCode {
    match i
    case 0 => HuffmanCode(0xfffe6, 20) case 1 => HuffmanCode(0x3fffd2, 22)
    case 2 => HuffmanCode(0xfffe7, 20) case 3 => HuffmanCode(0xfffe8, 20)
    case 4 => HuffmanCode(0x3fffd3, 22) case 5 => HuffmanCode(0x3fffd4, 22)
    case 6 => HuffmanCode(0x3fffd5, 22) case 7 => HuffmanCode(0x7fffd9, 23)
    case 8 => HuffmanCode(0x3fffd6, 22) case 9 => HuffmanCode(0x7fffda, 23)
    case 10 => HuffmanCode(0x7fffdb, 23) case 11 => HuffmanCode(0x7fffdc, 23)
    case 12 => HuffmanCode(0x7fffdd, 23) case 13 => HuffmanCode(0x7fffde, 23)
    case 14 => HuffmanCode(0xffffeb, 24) case _ => HuffmanCode(0x7fffdf, 23)
  }

  function Row9(i: nat): HuffmanCode {
    match i
    case 0 => HuffmanCode(0xffffec, 24) case 1 => HuffmanCode(0xffffed, 24)
    case 2 => HuffmanCode(0x3fffd7, 22) case 3 => HuffmanCode(0x7fffe0, 23)
    case 4 => HuffmanCode(0xffffee, 24) case 5 => HuffmanCode(0x7fffe1, 23)
    case 6 => HuffmanCode(0x7fffe2, 23) case 7 => HuffmanCode(0x7fffe3, 23)
    case 8 => HuffmanCode(0x7fffe4, 23) case 9 => HuffmanCode(0x1fffdc, 21)
    case 10 => HuffmanCode(0x3fffd8, 22) case 11 => HuffmanCode(0x7fffe5, 23)
    case 12 => HuffmanCode(0x3fffd9, 22) case 13 => HuffmanCode(0x7fffe6, 23)
    case 14 => HuffmanCode(0x7fffe7, 23) case _ => HuffmanCode(0xffffef, 24)
  }

  function Row10(i: nat): HuffmanCode {
    match i
    case 0 => HuffmanCode(0x3fffda, 22) case 1 => HuffmanCode(0x1fffdd, 21)
    case 2 => HuffmanCode(0xfffe9, 20) case 3 => HuffmanCode(0x3fffdb, 22)
    case 4 => HuffmanCode(0x3fffdc, 22) case 5 => HuffmanCode(0x7fffe8, 23)
    case 6 => HuffmanCode(0x7fffe9, 23) case 7 => HuffmanCode(0x1fffde, 21)
    case 8 => HuffmanCode(0x7fffea, 23) case 9 => HuffmanCode(0x3fffdd, 22)
    case 10 => HuffmanCode(0x3fffde, 22) case 11 => HuffmanCode(0xfffff0, 24)
    case 12 => HuffmanCode(0x1fffdf, 21) case 13 => HuffmanCode(0x3fffdf, 22)
    case 14 => HuffmanCode(0x7fffeb, 23) case _ => HuffmanCode(0x7fffec, 23)
  }

  function Row11(i: nat): HuffmanCode {
    match i
    case 0 => HuffmanCode(0x1fffe0, 21) case 1 => HuffmanCode(0x1fffe1, 21)
    case 2 => HuffmanCode(0x3fffe0, 22) case 3 => HuffmanCode(0x1fffe2, 21)
    case 4 => HuffmanCode(0x7fffed, 23) case 5 => HuffmanCode(0x3fffe1, 22)
    case 6 => HuffmanCode(0x7fffee, 23) case 7 => HuffmanCode(0x7fffef, 23)
    case 8 => HuffmanCode(0xfffea, 20) case 9 => HuffmanCode(0x3fffe2, 22)
    case 10 => HuffmanCode(0x3fffe3, 22) case 11 => HuffmanCode(0x3fffe4, 22)
    case 12 => HuffmanCode(0x7ffff0, 23) case 13 => HuffmanCode(0x3fffe5, 22)
    case 14 => HuffmanCode(0x3fffe6, 22) case _ => HuffmanCode(0x7ffff1, 23)
  }

  function Row12(i: nat): HuffmanCode {
    match i
    case 0 => HuffmanCode(0x3ffffe0, 26) case 1 => HuffmanCode(0x3ffffe1, 26)
    case 2 => HuffmanCode(0xfffeb, 20) case 3 => HuffmanCode(0x7fff1, 19)
    case 4 => HuffmanCode(0x3fffe7, 22) case 5 => HuffmanCode(0x7ffff2, 23)
    case 6 => HuffmanCode(0x3fffe8, 22) case 7 => HuffmanCode(0x1ffffec, 25)
    case 8 => HuffmanCode(0x3ffffe2, 26) case 9 => HuffmanCode(0x3ffffe3, 26)
    case 10 => HuffmanCode(0x3ffffe4, 26) case 11 => HuffmanCode(0x7ffffde, 27)
    case 12 => HuffmanCode(0x7ffffdf, 27) case 13 => HuffmanCode(0x3ffffe5, 26)
    case 14 => HuffmanCode(0xfffff1, 24) case _ => HuffmanCode(0x1ffffed, 25)
  }

  function Row13(i: nat): HuffmanCode {
    match i
    case 0 => HuffmanCode(0x7fff2, 19) case 1 => HuffmanCode(0x1fffe3, 21)
    case 2 => HuffmanCode(0x3ffffe6, 26) case 3 => HuffmanCode(0x7ffffe0, 27)
    case 4 => HuffmanCode(0x7ffffe1, 27) case 5 => HuffmanCode(0x3ffffe7, 26)
    case 6 => HuffmanCode(0x7ffffe2, 27) case 7 => HuffmanCode(0xfffff2, 24)
    case 8 => HuffmanCode(0x1fffe4, 21) case 9 => HuffmanCode(0x1fffe5, 21)
    case 10 => HuffmanCode(0x3ffffe8, 26) case 11 => HuffmanCode(0x3ffffe9, 26)
    case 12 => HuffmanCode(0xffffffd, 28) case 13 => HuffmanCode(0x7ffffe3, 27)
    case 14 => HuffmanCode(0x7ffffe4, 27) case _ => HuffmanCode(0x7ffffe5, 27)
  }

  function Row14(i: nat): HuffmanCode {
    match i
    case 0 => HuffmanCode(0xfffec, 20) case 1 => HuffmanCode(0xfffff3, 24)
    case 2 => HuffmanCode(0xfffed, 20) case 3 => HuffmanCode(0x1fffe6, 21)
    case 4 => HuffmanCode(0x3fffe9, 22) case 5 => HuffmanCode(0x1fffe7, 21)
    case 6 => HuffmanCode(0x1fffe8, 21) case 7 => HuffmanCode(0x7ffff3, 23)
    case 8 => HuffmanCode(0x3fffea, 22) case 9 => HuffmanCode(0x3fffeb, 22)
    case 10 => HuffmanCode(0x1ffffee, 25) case 11 => HuffmanCode(0x1ffffef, 25)
    case 12 => HuffmanCode(0xfffff4, 24) case 13 => HuffmanCode(0xfffff5, 24)
    case 14 => HuffmanCode(0x3ffffea, 26) case _ => HuffmanCode(0x7ffff4, 23)
  }

  function Row15(i: nat): HuffmanCode {
    match i
    case 0 => HuffmanCode(0x3ffffeb, 26) case 1 => HuffmanCode(0x7ffffe6, 27)
    case 2 => HuffmanCode(0x3ffffec, 26) case 3 => HuffmanCode(0x3ffffed, 26)
    case 4 => HuffmanCode(0x7ffffe7, 27) case 5 => HuffmanCode(0x7ffffe8, 27)
    case 6 => HuffmanCode(0x7ffffe9, 27) case 7 => HuffmanCode(0x7ffffea, 27)
    case 8 => HuffmanCode(0x7ffffeb, 27) case 9 => HuffmanCode(0xffffffe, 28)
    case 10 => HuffmanCode(0x7ffffec, 27) case 11 => HuffmanCode(0x7ffffed, 27)
    case 12 => HuffmanCode(0x7ffffee, 27) case 13 => HuffmanCode(0x7ffffef, 27)
    case 14 => HuffmanCode(0x7fffff0, 27) case _ => HuffmanCode(0x3ffffee, 26)
  }

  function CodeOf(symbol: nat): HuffmanCode
    requires symbol < SYMBOLS
  {
    match symbol / 16
    case 0 => Row0(symbol % 16)
    case 1 => Row1(symbol % 16)
    case 2 => Row2(symbol % 16)
    case 3 => Row3(symbol % 16)
    case 4 => Row4(symbol % 16)
    case 5 => Row5(symbol % 16)
    case 6 => Row6(symbol % 16)
    case 7 => Row7(symbol % 16)
    case 8 => Row8(symbol % 16)
    case 9 => Row9(symbol % 16)
    case 10 => Row10(symbol % 16)
    case 11 => Row11(symbol % 16)
    case 12 => Row12(symbol % 16)
    case 13 => Row13(symbol % 16)
    case 14 => Row14(symbol % 16)
    case 15 => Row15(symbol % 16)
    case _ => HuffmanCode(0x3fffffff, 30)
  }

  /** The table as the sequence that the tree builder runs over. */
  function Table(): (r: seq<HuffmanCode>)
    ensures |r| == SYMBOLS
    ensures forall s :: 0 <= s < SYMBOLS ==> r[s] == CodeOf(s)
  {
    seq(SYMBOLS, s requires 0 <= s < SYMBOLS => CodeOf(s))
  }

  /** The `n` low bits of `value`, most significant first. */
  function BitsOf(value: nat, n: nat): (r: Bits)
    ensures |r| == n
  {
    if n == 0 then [] else BitsOf(value / 2, n - 1) + [value % 2]
  }

  /** The bit string of every code of a table. */
  function Codes(table: seq<HuffmanCode>): (r: seq<Bits>)
    ensures |r| == |table|
    ensures forall s :: 0 <= s < |table| ==> r[s] == BitsOf(table[s].code, table[s].bits)
  {
    seq(|table|, s requires 0 <= s < |table| => BitsOf(table[s].code, table[s].bits))
  }

  // ----- the tree

  /** Every leaf below the node reached by the `bits` bits of `code` carries the symbol
      that the table gives that code. */
  ghost predicate CodesAgree(t: CodeTree, code: nat, bits: nat) {
    match t
    case Leaf(s) => s < SYMBOLS && CodeOf(s) == HuffmanCode(code, bits)
    case Fork(zero, one) => CodesAgree(zero, 2 * code, bits + 1) && CodesAgree(one, 2 * code + 1, bits + 1)
  }

  // Below<n> constructs the subtree behind n one-bits, Side<n> the one behind n one-bits and a zero.

  lemma Below25() returns (t: CodeTree)
    ensures CodesAgree(t, 0x1ffffff, 25) && Leaves(t) == 11
  {
    t :=
      Fork(Fork(Fork(Leaf(28), Leaf(29)), Fork(Leaf(30), Leaf(31))), Fork(Fork(Leaf(127), Leaf(220)),
      Fork(Leaf(249), Fork(Fork(Leaf(10), Leaf(13)), Fork(Leaf(22), Leaf(256))))));
  }

  lemma Side24() returns (t: CodeTree)
    ensures CodesAgree(t, 0x1fffffe, 25) && Leaves(t) == 8
  {
    t :=
      Fork(Fork(Fork(Leaf(19), Leaf(20)), Fork(Leaf(21), Leaf(23))), Fork(Fork(Leaf(24), Leaf(25)),
      Fork(Leaf(26), Leaf(27))));
  }

  lemma Below24() returns (t: CodeTree)
    ensures CodesAgree(t, 0xffffff, 24) && Leaves(t) == 19
  {
    var zero := Side24();
    var one := Below25();
    t := Fork(zero, one);
  }

  lemma Side23Zero() returns (t: CodeTree)
    ensures CodesAgree(t, 0x1fffffc, 25) && Leaves(t) == 7
  {
    t :=
      Fork(Fork(Leaf(254), Fork(Leaf(2), Leaf(3))), Fork(Fork(Leaf(4), Leaf(5)), Fork(Leaf(6), Leaf(7))));
  }

  lemma Side23One() returns (t: CodeTree)
    ensures CodesAgree(t, 0x1fffffd, 25) && Leaves(t) == 8
  {
    t :=
      Fork(Fork(Fork(Leaf(8), Leaf(11)), Fork(Leaf(12), Leaf(14))), Fork(Fork(Leaf(15), Leaf(16)),
      Fork(Leaf(17), Leaf(18))));
  }

  lemma Side23() returns (t: CodeTree)
    ensures CodesAgree(t, 0xfffffe, 24) && Leaves(t) == 15
  {
    var zero := Side23Zero();
    var one := Side23One();
    t := Fork(zero, one);
  }

  lemma Below23() returns (t: CodeTree)
    ensures CodesAgree(t, 0x7fffff, 23) && Leaves(t) == 34
  {
    var zero := Side23();
    var one := Below24();
    t := Fork(zero, one);
  }

  lemma Side22Zero() returns (t: CodeTree)
    ensures CodesAgree(t, 0xfffffc, 24) && Leaves(t) == 8
  {
    t :=
      Fork(Fork(Fork(Leaf(211), Leaf(212)), Fork(Leaf(214), Leaf(221))), Fork(Fork(Leaf(222), Leaf(223)),
      Fork(Leaf(241), Leaf(244))));
  }

  lemma Side22One() returns (t: CodeTree)
    ensures CodesAgree(t, 0xfffffd, 24) && Leaves(t) == 8
  {
    t :=
      Fork(Fork(Fork(Leaf(245), Leaf(246)), Fork(Leaf(247), Leaf(248))), Fork(Fork(Leaf(250), Leaf(251)),
      Fork(Leaf(252), Leaf(253))));
  }

  lemma Side22() returns (t: CodeTree)
    ensures CodesAgree(t, 0x7ffffe, 23) && Leaves(t) == 16
  {
    var zero := Side22Zero();
    var one := Side22One();
    t := Fork(zero, one);
  }

  lemma Below22() returns (t: CodeTree)
    ensures CodesAgree(t, 0x3fffff, 22) && Leaves(t) == 50
  {
    var zero := Side22();
    var one := Below23();
    t := Fork(zero, one);
  }

  lemma Side21Zero() returns (t: CodeTree)
    ensures CodesAgree(t, 0x7ffffc, 23) && Leaves(t) == 8
  {
    t :=
      Fork(Fork(Fork(Leaf(192), Leaf(193)), Fork(Leaf(200), Leaf(201))), Fork(Fork(Leaf(202), Leaf(205)),
      Fork(Leaf(210), Leaf(213))));
  }

  lemma Side21One() returns (t: CodeTree)
    ensures CodesAgree(t, 0x7ffffd, 23) && Leaves(t) == 9
  {
    t :=
      Fork(Fork(Fork(Leaf(218), Leaf(219)), Fork(Leaf(238), Leaf(240))), Fork(Fork(Leaf(242), Leaf(243)),
      Fork(Leaf(255), Fork(Leaf(203), Leaf(204)))));
  }

  lemma Side21() returns (t: CodeTree)
    ensures CodesAgree(t, 0x3ffffe, 22) && Leaves(t) == 17
  {
    var zero := Side21Zero();
    var one := Side21One();
    t := Fork(zero, one);
  }

  lemma Below21() returns (t: CodeTree)
    ensures CodesAgree(t, 0x1fffff, 21) && Leaves(t) == 67
  {
    var zero := Side21();
    var one := Below22();
    t := Fork(zero, one);
  }

  lemma Side20() returns (t: CodeTree)
    ensures CodesAgree(t, 0x1ffffe, 21) && Leaves(t) == 10
  {
    t :=
      Fork(Fork(Fork(Leaf(171), Leaf(206)), Fork(Leaf(215), Leaf(225))), Fork(Fork(Leaf(236), Leaf(237)),
      Fork(Fork(Leaf(199), Leaf(207)), Fork(Leaf(234), Leaf(235)))));
  }

  lemma Below20() returns (t: CodeTree)
    ensures CodesAgree(t, 0xfffff, 20) && Leaves(t) == 77
  {
    var zero := Side20();
    var one := Below21();
    t := Fork(zero, one);
  }

  lemma Side19() returns (t: CodeTree)
    ensures CodesAgree(t, 0xffffe, 20) && Leaves(t) == 11
  {
    t :=
      Fork(Fork(Fork(Leaf(188), Leaf(191)), Fork(Leaf(197), Leaf(231))), Fork(Fork(Leaf(239), Fork(Leaf(9),
      Leaf(142))), Fork(Fork(Leaf(144), Leaf(145)), Fork(Leaf(148), Leaf(159)))));
  }

  lemma Below19() returns (t: CodeTree)
    ensures CodesAgree(t, 0x7ffff, 19) && Leaves(t) == 88
  {
    var zero := Side19();
    var one := Below20();
    t := Fork(zero, one);
  }

  lemma Side18Zero() returns (t: CodeTree)
    ensures CodesAgree(t, 0xffffc, 20) && Leaves(t) == 8
  {
    t :=
      Fork(Fork(Fork(Leaf(147), Leaf(149)), Fork(Leaf(150), Leaf(151))), Fork(Fork(Leaf(152), Leaf(155)),
      Fork(Leaf(157), Leaf(158))));
  }

  lemma Side18One() returns (t: CodeTree)
    ensures CodesAgree(t, 0xffffd, 20) && Leaves(t) == 8
  {
    t :=
      Fork(Fork(Fork(Leaf(165), Leaf(166)), Fork(Leaf(168), Leaf(174))), Fork(Fork(Leaf(175), Leaf(180)),
      Fork(Leaf(182), Leaf(183))));
  }

  lemma Side18() returns (t: CodeTree)
    ensures CodesAgree(t, 0x7fffe, 19) && Leaves(t) == 16
  {
    var zero := Side18Zero();
    var one := Side18One();
    t := Fork(zero, one);
  }

  lemma Below18() returns (t: CodeTree)
    ensures CodesAgree(t, 0x3ffff, 18) && Leaves(t) == 104
  {
    var zero := Side18();
    var one := Below19();
    t := Fork(zero, one);
  }

  lemma Side17Zero() returns (t: CodeTree)
    ensures CodesAgree(t, 0x7fffc, 19) && Leaves(t) == 8
  {
    t :=
      Fork(Fork(Fork(Leaf(178), Leaf(181)), Fork(Leaf(185), Leaf(186))), Fork(Fork(Leaf(187), Leaf(189)),
      Fork(Leaf(190), Leaf(196))));
  }

  lemma Side17OneZero() returns (t: CodeTree)
    ensures CodesAgree(t, 0xffffa, 20) && Leaves(t) == 4
  {
    t :=
      Fork(Fork(Leaf(198), Leaf(228)), Fork(Leaf(232), Leaf(233)));
  }

  lemma Side17OneOne() returns (t: CodeTree)
    ensures CodesAgree(t, 0xffffb, 20) && Leaves(t) == 8
  {
    t :=
      Fork(Fork(Fork(Leaf(1), Leaf(135)), Fork(Leaf(137), Leaf(138))), Fork(Fork(Leaf(139), Leaf(140)),
      Fork(Leaf(141), Leaf(143))));
  }

  lemma Side17One() returns (t: CodeTree)
    ensures CodesAgree(t, 0x7fffd, 19) && Leaves(t) == 12
  {
    var zero := Side17OneZero();
    var one := Side17OneOne();
    t := Fork(zero, one);
  }

  lemma Side17() returns (t: CodeTree)
    ensures CodesAgree(t, 0x3fffe, 18) && Leaves(t) == 20
  {
    var zero := Side17Zero();
    var one := Side17One();
    t := Fork(zero, one);
  }

  lemma Below17() returns (t: CodeTree)
    ensures CodesAgree(t, 0x1ffff, 17) && Leaves(t) == 124
  {
    var zero := Side17();
    var one := Below18();
    t := Fork(zero, one);
  }

  lemma Side16Zero() returns (t: CodeTree)
    ensures CodesAgree(t, 0x3fffc, 18) && Leaves(t) == 8
  {
    t :=
      Fork(Fork(Fork(Leaf(176), Leaf(177)), Fork(Leaf(179), Leaf(209))), Fork(Fork(Leaf(216), Leaf(217)),
      Fork(Leaf(227), Leaf(229))));
  }

  lemma Side16OneZero() returns (t: CodeTree)
    ensures CodesAgree(t, 0x7fffa, 19) && Leaves(t) == 7
  {
    t :=
      Fork(Fork(Leaf(230), Fork(Leaf(129), Leaf(132))), Fork(Fork(Leaf(133), Leaf(134)), Fork(Leaf(136),
      Leaf(146))));
  }

  lemma Side16OneOne() returns (t: CodeTree)
    ensures CodesAgree(t, 0x7fffb, 19) && Leaves(t) == 8
  {
    t :=
      Fork(Fork(Fork(Leaf(154), Leaf(156)), Fork(Leaf(160), Leaf(163))), Fork(Fork(Leaf(164), Leaf(169)),
      Fork(Leaf(170), Leaf(173))));
  }

  lemma Side16One() returns (t: CodeTree)
    ensures CodesAgree(t, 0x3fffd, 18) && Leaves(t) == 15
  {
    var zero := Side16OneZero();
    var one := Side16OneOne();
    t := Fork(zero, one);
  }

  lemma Side16() returns (t: CodeTree)
    ensures CodesAgree(t, 0x1fffe, 17) && Leaves(t) == 23
  {
    var zero := Side16Zero();
    var one := Side16One();
    t := Fork(zero, one);
  }

  lemma Below16() returns (t: CodeTree)
    ensures CodesAgree(t, 0xffff, 16) && Leaves(t) == 147
  {
    var zero := Side16();
    var one := Below17();
    t := Fork(zero, one);
  }

  lemma Side15Zero() returns (t: CodeTree)
    ensures CodesAgree(t, 0x1fffc, 17) && Leaves(t) == 5
  {
    t :=
      Fork(Fork(Leaf(92), Leaf(195)), Fork(Leaf(208), Fork(Leaf(128), Leaf(130))));
  }

  lemma Side15One() returns (t: CodeTree)
    ensures CodesAgree(t, 0x1fffd, 17) && Leaves(t) == 10
  {
    t :=
      Fork(Fork(Fork(Leaf(131), Leaf(162)), Fork(Leaf(184), Leaf(194))), Fork(Fork(Leaf(224), Leaf(226)),
      Fork(Fork(Leaf(153), Leaf(161)), Fork(Leaf(167), Leaf(172)))));
  }

  lemma Side15() returns (t: CodeTree)
    ensures CodesAgree(t, 0xfffe, 16) && Leaves(t) == 15
  {
    var zero := Side15Zero();
    var one := Side15One();
    t := Fork(zero, one);
  }

  lemma Below15() returns (t: CodeTree)
    ensures CodesAgree(t, 0x7fff, 15) && Leaves(t) == 162
  {
    var zero := Side15();
    var one := Below16();
    t := Fork(zero, one);
  }

  lemma Side14() returns (t: CodeTree)
    ensures CodesAgree(t, 0x7ffe, 15) && Leaves(t) == 1
  {
    t :=
      Leaf(123);
  }

  lemma Below14() returns (t: CodeTree)
    ensures CodesAgree(t, 0x3fff, 14) && Leaves(t) == 163
  {
    var zero := Side14();
    var one := Below15();
    t := Fork(zero, one);
  }

  lemma Side13() returns (t: CodeTree)
    ensures CodesAgree(t, 0x3ffe, 14) && Leaves(t) == 2
  {
    t :=
      Fork(Leaf(60), Leaf(96));
  }

  lemma Below13() returns (t: CodeTree)
    ensures CodesAgree(t, 0x1fff, 13) && Leaves(t) == 165
  {
    var zero := Side13();
    var one := Below14();
    t := Fork(zero, one);
  }

  lemma Side12() returns (t: CodeTree)
    ensures CodesAgree(t, 0x1ffe, 13) && Leaves(t) == 2
  {
    t :=
      Fork(Leaf(94), Leaf(125));
  }

  lemma Below12() returns (t: CodeTree)
    ensures CodesAgree(t, 0xfff, 12) && Leaves(t) == 167
  {
    var zero := Side12();
    var one := Below13();
    t := Fork(zero, one);
  }

  lemma Side11() returns (t: CodeTree)
    ensures CodesAgree(t, 0xffe, 12) && Leaves(t) == 2
  {
    t :=
      Fork(Leaf(93), Leaf(126));
  }

  lemma Below11() returns (t: CodeTree)
    ensures CodesAgree(t, 0x7ff, 11) && Leaves(t) == 169
  {
    var zero := Side11();
    var one := Below12();
    t := Fork(zero, one);
  }

  lemma Side10() returns (t: CodeTree)
    ensures CodesAgree(t, 0x7fe, 11) && Leaves(t) == 4
  {
    t :=
      Fork(Fork(Leaf(0), Leaf(36)), Fork(Leaf(64), Leaf(91)));
  }

  lemma Below10() returns (t: CodeTree)
    ensures CodesAgree(t, 0x3ff, 10) && Leaves(t) == 173
  {
    var zero := Side10();
    var one := Below11();
    t := Fork(zero, one);
  }

  lemma Side9() returns (t: CodeTree)
    ensures CodesAgree(t, 0x3fe, 10) && Leaves(t) == 3
  {
    t :=
      Fork(Leaf(124), Fork(Leaf(35), Leaf(62)));
  }

  lemma Below9() returns (t: CodeTree)
    ensures CodesAgree(t, 0x1ff, 9) && Leaves(t) == 176
  {
    var zero := Side9();
    var one := Below10();
    t := Fork(zero, one);
  }

  lemma Side8() returns (t: CodeTree)
    ensures CodesAgree(t, 0x1fe, 9) && Leaves(t) == 3
  {
    t :=
      Fork(Leaf(63), Fork(Leaf(39), Leaf(43)));
  }

  lemma Below8() returns (t: CodeTree)
    ensures CodesAgree(t, 0xff, 8) && Leaves(t) == 179
  {
    var zero := Side8();
    var one := Below9();
    t := Fork(zero, one);
  }

  lemma Side7() returns (t: CodeTree)
    ensures CodesAgree(t, 0xfe, 8) && Leaves(t) == 4
  {
    t :=
      Fork(Fork(Leaf(33), Leaf(34)), Fork(Leaf(40), Leaf(41)));
  }

  lemma Below7() returns (t: CodeTree)
    ensures CodesAgree(t, 0x7f, 7) && Leaves(t) == 183
  {
    var zero := Side7();
    var one := Below8();
    t := Fork(zero, one);
  }

  lemma Side6() returns (t: CodeTree)
    ensures CodesAgree(t, 0x7e, 7) && Leaves(t) == 2
  {
    t :=
      Fork(Leaf(88), Leaf(90));
  }

  lemma Below6() returns (t: CodeTree)
    ensures CodesAgree(t, 0x3f, 6) && Leaves(t) == 185
  {
    var zero := Side6();
    var one := Below7();
    t := Fork(zero, one);
  }

  lemma Side5() returns (t: CodeTree)
    ensures CodesAgree(t, 0x3e, 6) && Leaves(t) == 4
  {
    t :=
      Fork(Fork(Leaf(38), Leaf(42)), Fork(Leaf(44), Leaf(59)));
  }

  lemma Below5() returns (t: CodeTree)
    ensures CodesAgree(t, 0x1f, 5) && Leaves(t) == 189
  {
    var zero := Side5();
    var one := Below6();
    t := Fork(zero, one);
  }

  lemma Side4() returns (t: CodeTree)
    ensures CodesAgree(t, 0x1e, 5) && Leaves(t) == 4
  {
    t :=
      Fork(Fork(Leaf(119), Leaf(120)), Fork(Leaf(121), Leaf(122)));
  }

  lemma Below4() returns (t: CodeTree)
    ensures CodesAgree(t, 0xf, 4) && Leaves(t) == 193
  {
    var zero := Side4();
    var one := Below5();
    t := Fork(zero, one);
  }

  lemma Side3() returns (t: CodeTree)
    ensures CodesAgree(t, 0xe, 4) && Leaves(t) == 8
  {
    t :=
      Fork(Fork(Fork(Leaf(85), Leaf(86)), Fork(Leaf(87), Leaf(89))), Fork(Fork(Leaf(106), Leaf(107)),
      Fork(Leaf(113), Leaf(118))));
  }

  lemma Below3() returns (t: CodeTree)
    ensures CodesAgree(t, 7, 3) && Leaves(t) == 201
  {
    var zero := Side3();
    var one := Below4();
    t := Fork(zero, one);
  }

  lemma Side2Zero() returns (t: CodeTree)
    ensures CodesAgree(t, 0xc, 4) && Leaves(t) == 8
  {
    t :=
      Fork(Fork(Fork(Leaf(69), Leaf(70)), Fork(Leaf(71), Leaf(72))), Fork(Fork(Leaf(73), Leaf(74)),
      Fork(Leaf(75), Leaf(76))));
  }

  lemma Side2One() returns (t: CodeTree)
    ensures CodesAgree(t, 0xd, 4) && Leaves(t) == 8
  {
    t :=
      Fork(Fork(Fork(Leaf(77), Leaf(78)), Fork(Leaf(79), Leaf(80))), Fork(Fork(Leaf(81), Leaf(82)),
      Fork(Leaf(83), Leaf(84))));
  }

  lemma Side2() returns (t: CodeTree)
    ensures CodesAgree(t, 6, 3) && Leaves(t) == 16
  {
    var zero := Side2Zero();
    var one := Side2One();
    t := Fork(zero, one);
  }

  lemma Below2() returns (t: CodeTree)
    ensures CodesAgree(t, 3, 2) && Leaves(t) == 217
  {
    var zero := Side2();
    var one := Below3();
    t := Fork(zero, one);
  }

  lemma Side1Zero() returns (t: CodeTree)
    ensures CodesAgree(t, 4, 3) && Leaves(t) == 8
  {
    t :=
      Fork(Fork(Fork(Leaf(61), Leaf(65)), Fork(Leaf(95), Leaf(98))), Fork(Fork(Leaf(100), Leaf(102)),
      Fork(Leaf(103), Leaf(104))));
  }

  lemma Side1One() returns (t: CodeTree)
    ensures CodesAgree(t, 5, 3) && Leaves(t) == 10
  {
    t :=
      Fork(Fork(Fork(Leaf(108), Leaf(109)), Fork(Leaf(110), Leaf(112))), Fork(Fork(Leaf(114), Leaf(117)),
      Fork(Fork(Leaf(58), Leaf(66)), Fork(Leaf(67), Leaf(68)))));
  }

  lemma Side1() returns (t: CodeTree)
    ensures CodesAgree(t, 2, 2) && Leaves(t) == 18
  {
    var zero := Side1Zero();
    var one := Side1One();
    t := Fork(zero, one);
  }

  lemma Below1() returns (t: CodeTree)
    ensures CodesAgree(t, 1, 1) && Leaves(t) == 235
  {
    var zero := Side1();
    var one := Below2();
    t := Fork(zero, one);
  }

  lemma Side0Zero() returns (t: CodeTree)
    ensures CodesAgree(t, 0, 2) && Leaves(t) == 8
  {
    t :=
      Fork(Fork(Fork(Leaf(48), Leaf(49)), Fork(Leaf(50), Leaf(97))), Fork(Fork(Leaf(99), Leaf(101)),
      Fork(Leaf(105), Leaf(111))));
  }

  lemma Side0OneZero() returns (t: CodeTree)
    ensures CodesAgree(t, 2, 3) && Leaves(t) == 6
  {
    t :=
      Fork(Fork(Leaf(115), Leaf(116)), Fork(Fork(Leaf(32), Leaf(37)), Fork(Leaf(45), Leaf(46))));
  }

  lemma Side0OneOne() returns (t: CodeTree)
    ensures CodesAgree(t, 3, 3) && Leaves(t) == 8
  {
    t :=
      Fork(Fork(Fork(Leaf(47), Leaf(51)), Fork(Leaf(52), Leaf(53))), Fork(Fork(Leaf(54), Leaf(55)),
      Fork(Leaf(56), Leaf(57))));
  }

  lemma Side0One() returns (t: CodeTree)
    ensures CodesAgree(t, 1, 2) && Leaves(t) == 14
  {
    var zero := Side0OneZero();
    var one := Side0OneOne();
    t := Fork(zero, one);
  }

  lemma Side0() returns (t: CodeTree)
    ensures CodesAgree(t, 0, 1) && Leaves(t) == 22
  {
    var zero := Side0Zero();
    var one := Side0One();
    t := Fork(zero, one);
  }

  lemma Below0() returns (t: CodeTree)
    ensures CodesAgree(t, 0, 0) && Leaves(t) == 257
  {
    var zero := Side0();
    var one := Below1();
    t := Fork(zero, one);
  }

  lemma CodeAt(s: nat, code: nat, bits: nat)
    requires s < SYMBOLS && CodeOf(s) == HuffmanCode(code, bits)
    ensures |Codes(Table())| == SYMBOLS && Codes(Table())[s] == BitsOf(code, bits)
  {
    hide CodeOf, BitsOf;
    assert Table()[s] == HuffmanCode(code, bits);
  }

  lemma {:induction false} AgreeingTreeCarriesCodes(t: CodeTree, code: nat, bits: nat)
    requires CodesAgree(t, code, bits)
    ensures LeavesCarry(t, Codes(Table()), BitsOf(code, bits))
  {
    hide Table, Codes, CodeOf;
    match t
    case Leaf(s) => CodeAt(s, code, bits);
    case Fork(zero, one) =>
      AgreeingTreeCarriesCodes(zero, 2 * code, bits + 1);
      AgreeingTreeCarriesCodes(one, 2 * code + 1, bits + 1);
      assert BitsOf(2 * code, bits + 1) == BitsOf(code, bits) + [0];
      assert BitsOf(2 * code + 1, bits + 1) == BitsOf(code, bits) + [1];
  }

  /** The codes of the table are prefix-free and complete. */
  lemma TableIsPrefixCode()
    ensures PrefixFree(Codes(Table())) && Complete(Codes(Table()))
  {
    var root := Below0();
    AgreeingTreeCarriesCodes(root, 0, 0);
    FullTreeMeansPrefixCode(root, Codes(Table()));
  }

  function PowerOfTwo(n: nat): nat {
    if n == 0 then 1 else 2 * PowerOfTwo(n - 1)
  }

  lemma {:induction false} BitsOfOnes(n: nat, i: nat)
    requires i < n
    ensures PowerOfTwo(n) > 0 && BitsOf(PowerOfTwo(n) - 1, n)[i] == 1
  {
    assert PowerOfTwo(n - 1) > 0 by {
      if n > 1 {
        BitsOfOnes(n - 1, 0);
      }
    }
    assert (PowerOfTwo(n) - 1) / 2 == PowerOfTwo(n - 1) - 1;
    if i < n - 1 {
      BitsOfOnes(n - 1, i);
    }
  }

  lemma EosCode()
    ensures PowerOfTwo(30) > 0 && Codes(Table())[EOS] == BitsOf(PowerOfTwo(30) - 1, 30)
  {
    assert PowerOfTwo(10) == 0x400 && PowerOfTwo(20) == 0x10_0000 && PowerOfTwo(30) == 0x4000_0000;
    assert CodeOf(EOS) == HuffmanCode(0x3fffffff, 30);
  }

  /** The end-of-string code is thirty one-bits. */
  lemma EosIsThirtyOnes()
    ensures |Codes(Table())[EOS]| == 30
    ensures forall i :: 0 <= i < 30 ==> Codes(Table())[EOS][i] == 1
  {
    hide CodeOf;
    EosCode();
    forall i | 0 <= i < 30
      ensures Codes(Table())[EOS][i] == 1
    {
      BitsOfOnes(30, i);
    }
  }

  lemma AtMostThirtyBits(s: nat)
    requires s < SYMBOLS
    ensures CodeOf(s).bits <= 30
  {
  }

  /** `value >> k`. */
  function ShiftRight(value: nat, k: nat): nat {
    if k == 0 then value else ShiftRight(value / 2, k - 1)
  }

  /** Bit `j` of a code, counted from its most significant bit, is what the shift in the
      tree builder extracts. */
  lemma {:induction false} BitByShift(value: nat, n: nat, j: nat)
    requires j < n
    ensures BitsOf(value, n)[j] == ShiftRight(value, n - j - 1) % 2
  {
    if j < n - 1 {
      BitByShift(value / 2, n - 1, j);
    }
  }
}
