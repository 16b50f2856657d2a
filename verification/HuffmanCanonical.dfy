/** The static Huffman code from its lengths alone: it is the canonical code, in which the codes of
    one length are consecutive numbers in the order of their symbols (appendix B of RFC 7541). */
module HuffmanCanonical {
  import opened HuffmanTable

  /** How many symbols have a code of so many bits. */
  function HowMany(bits: nat): nat {
    match bits
    case 5 => 10 case 6 => 26 case 7 => 32 case 8 => 6 case 10 => 5 case 11 => 3
    case 12 => 2 case 13 => 6 case 14 => 2 case 15 => 3 case 19 => 3 case 20 => 8
    case 21 => 13 case 22 => 26 case 23 => 29 case 24 => 12 case 25 => 4 case 26 => 15
    case 27 => 19 case 28 => 29 case 30 => 4
    case _ => 0
  }

  /** The first code of a length: behind the last one that is a bit shorter. */
  function FirstCode(bits: nat): nat {
    if bits == 0 then 0 else 2 * (FirstCode(bits - 1) + HowMany(bits - 1))
  }

  /** How many symbols there are with codes of at most so many bits. */
  function Listed(bits: nat): nat {
    HowMany(bits) + if bits == 0 then 0 else Listed(bits - 1)
  }

  // ----- the symbols with a code of so many bits, in their order

  function Symbol5(k: nat): nat {
    match k
    case 0 => 48 case 1 => 49 case 2 => 50 case 3 => 97 case 4 => 99 case 5 => 101
    case 6 => 105 case 7 => 111 case 8 => 115 case _ => 116
  }

  function Symbol6(k: nat): nat {
    match k
    case 0 => 32 case 1 => 37 case 2 => 45 case 3 => 46 case 4 => 47 case 5 => 51
    case 6 => 52 case 7 => 53 case 8 => 54 case 9 => 55 case 10 => 56 case 11 => 57
    case 12 => 61 case 13 => 65 case 14 => 95 case 15 => 98 case 16 => 100 case 17 => 102
    case 18 => 103 case 19 => 104 case 20 => 108 case 21 => 109 case 22 => 110 case 23 => 112
    case 24 => 114 case _ => 117
  }

  function Symbol7(k: nat): nat {
    match k
    case 0 => 58 case 1 => 66 case 2 => 67 case 3 => 68 case 4 => 69 case 5 => 70
    case 6 => 71 case 7 => 72 case 8 => 73 case 9 => 74 case 10 => 75 case 11 => 76
    case 12 => 77 case 13 => 78 case 14 => 79 case 15 => 80 case 16 => 81 case 17 => 82
    case 18 => 83 case 19 => 84 case 20 => 85 case 21 => 86 case 22 => 87 case 23 => 89
    case 24 => 106 case 25 => 107 case 26 => 113 case 27 => 118 case 28 => 119 case 29 => 120
    case 30 => 121 case _ => 122
  }

  function Symbol8(k: nat): nat {
    match k
    case 0 => 38 case 1 => 42 case 2 => 44 case 3 => 59 case 4 => 88 case _ => 90
  }

  function Symbol10(k: nat): nat {
    match k
    case 0 => 33 case 1 => 34 case 2 => 40 case 3 => 41 case _ => 63
  }

  function Symbol11(k: nat): nat {
    match k
    case 0 => 39 case 1 => 43 case _ => 124
  }

  function Symbol12(k: nat): nat {
    match k
    case 0 => 35 case _ => 62
  }

  function Symbol13(k: nat): nat {
    match k
    case 0 => 0 case 1 => 36 case 2 => 64 case 3 => 91 case 4 => 93 case _ => 126
  }

  function Symbol14(k: nat): nat {
    match k
    case 0 => 94 case _ => 125
  }

  function Symbol15(k: nat): nat {
    match k
    case 0 => 60 case 1 => 96 case _ => 123
  }

  function Symbol19(k: nat): nat {
    match k
    case 0 => 92 case 1 => 195 case _ => 208
  }

  function Symbol20(k: nat): nat {
    match k
    case 0 => 128 case 1 => 130 case 2 => 131 case 3 => 162 case 4 => 184 case 5 => 194
    case 6 => 224 case _ => 226
  }

  function Symbol21(k: nat): nat {
    match k
    case 0 => 153 case 1 => 161 case 2 => 167 case 3 => 172 case 4 => 176 case 5 => 177
    case 6 => 179 case 7 => 209 case 8 => 216 case 9 => 217 case 10 => 227 case 11 => 229
    case _ => 230
  }

  function Symbol22(k: nat): nat {
    match k
    case 0 => 129 case 1 => 132 case 2 => 133 case 3 => 134 case 4 => 136 case 5 => 146
    case 6 => 154 case 7 => 156 case 8 => 160 case 9 => 163 case 10 => 164 case 11 => 169
    case 12 => 170 case 13 => 173 case 14 => 178 case 15 => 181 case 16 => 185 case 17 => 186
    case 18 => 187 case 19 => 189 case 20 => 190 case 21 => 196 case 22 => 198 case 23 => 228
    case 24 => 232 case _ => 233
  }

  function Symbol23(k: nat): nat {
    match k
    case 0 => 1 case 1 => 135 case 2 => 137 case 3 => 138 case 4 => 139 case 5 => 140
    case 6 => 141 case 7 => 143 case 8 => 147 case 9 => 149 case 10 => 150 case 11 => 151
    case 12 => 152 case 13 => 155 case 14 => 157 case 15 => 158 case 16 => 165 case 17 => 166
    case 18 => 168 case 19 => 174 case 20 => 175 case 21 => 180 case 22 => 182 case 23 => 183
    case 24 => 188 case 25 => 191 case 26 => 197 case 27 => 231 case _ => 239
  }

  function Symbol24(k: nat): nat {
    match k
    case 0 => 9 case 1 => 142 case 2 => 144 case 3 => 145 case 4 => 148 case 5 => 159
    case 6 => 171 case 7 => 206 case 8 => 215 case 9 => 225 case 10 => 236 case _ => 237
  }

  function Symbol25(k: nat): nat {
    match k
    case 0 => 199 case 1 => 207 case 2 => 234 case _ => 235
  }

  function Symbol26(k: nat): nat {
    match k
    case 0 => 192 case 1 => 193 case 2 => 200 case 3 => 201 case 4 => 202 case 5 => 205
    case 6 => 210 case 7 => 213 case 8 => 218 case 9 => 219 case 10 => 238 case 11 => 240
    case 12 => 242 case 13 => 243 case _ => 255
  }

  function Symbol27(k: nat): nat {
    match k
    case 0 => 203 case 1 => 204 case 2 => 211 case 3 => 212 case 4 => 214 case 5 => 221
    case 6 => 222 case 7 => 223 case 8 => 241 case 9 => 244 case 10 => 245 case 11 => 246
    case 12 => 247 case 13 => 248 case 14 => 250 case 15 => 251 case 16 => 252 case 17 => 253
    case _ => 254
  }

  function Symbol28(k: nat): nat {
    match k
    case 0 => 2 case 1 => 3 case 2 => 4 case 3 => 5 case 4 => 6 case 5 => 7
    case 6 => 8 case 7 => 11 case 8 => 12 case 9 => 14 case 10 => 15 case 11 => 16
    case 12 => 17 case 13 => 18 case 14 => 19 case 15 => 20 case 16 => 21 case 17 => 23
    case 18 => 24 case 19 => 25 case 20 => 26 case 21 => 27 case 22 => 28 case 23 => 29
    case 24 => 30 case 25 => 31 case 26 => 127 case 27 => 220 case _ => 249
  }

  function Symbol30(k: nat): nat {
    match k
    case 0 => 10 case 1 => 13 case 2 => 22 case _ => 256
  }

  /** Symbol `k` of those with a code of so many bits. */
  function SymbolOf(bits: nat, k: nat): nat
    requires k < HowMany(bits)
  {
    match bits
    case 5 => Symbol5(k) case 6 => Symbol6(k) case 7 => Symbol7(k) case 8 => Symbol8(k)
    case 10 => Symbol10(k) case 11 => Symbol11(k) case 12 => Symbol12(k) case 13 => Symbol13(k)
    case 14 => Symbol14(k) case 15 => Symbol15(k) case 19 => Symbol19(k) case 20 => Symbol20(k)
    case 21 => Symbol21(k) case 22 => Symbol22(k) case 23 => Symbol23(k) case 24 => Symbol24(k)
    case 25 => Symbol25(k) case 26 => Symbol26(k) case 27 => Symbol27(k) case 28 => Symbol28(k)
    case 30 => Symbol30(k)
    case _ => EOS
  }

  // ----- numbers of codes

  lemma ListedStep(bits: nat)
    ensures Listed(bits) == HowMany(bits) + if bits == 0 then 0 else Listed(bits - 1)
  {
  }

  lemma FirstCodeStep(bits: nat)
    ensures FirstCode(bits) == if bits == 0 then 0 else 2 * (FirstCode(bits - 1) + HowMany(bits - 1))
  {
  }

  lemma Listed8()
    ensures Listed(0) == 0
    ensures Listed(1) == 0
    ensures Listed(2) == 0
    ensures Listed(3) == 0
    ensures Listed(4) == 0
    ensures Listed(5) == 10
    ensures Listed(6) == 36
    ensures Listed(7) == 68
    ensures Listed(8) == 74
  {
    hide Listed;
    ListedStep(0); ListedStep(1); ListedStep(2); ListedStep(3); ListedStep(4);
    ListedStep(5); ListedStep(6); ListedStep(7); ListedStep(8);
  }

  lemma Listed15()
    ensures Listed(9) == 74
    ensures Listed(10) == 79
    ensures Listed(11) == 82
    ensures Listed(12) == 84
    ensures Listed(13) == 90
    ensures Listed(14) == 92
    ensures Listed(15) == 95
  {
    hide Listed;
    Listed8();
    ListedStep(9); ListedStep(10); ListedStep(11); ListedStep(12); ListedStep(13);
    ListedStep(14); ListedStep(15);
  }

  lemma Listed21()
    ensures Listed(16) == 95
    ensures Listed(17) == 95
    ensures Listed(18) == 95
    ensures Listed(19) == 98
    ensures Listed(20) == 106
    ensures Listed(21) == 119
  {
    hide Listed;
    Listed15();
    ListedStep(16); ListedStep(17); ListedStep(18); ListedStep(19); ListedStep(20);
    ListedStep(21);
  }

  lemma Listed26()
    ensures Listed(22) == 145
    ensures Listed(23) == 174
    ensures Listed(24) == 186
    ensures Listed(25) == 190
    ensures Listed(26) == 205
  {
    hide Listed;
    Listed21();
    ListedStep(22); ListedStep(23); ListedStep(24); ListedStep(25); ListedStep(26);
  }

  lemma Listed30()
    ensures Listed(27) == 224
    ensures Listed(28) == 253
    ensures Listed(29) == 253
    ensures Listed(30) == 257
  {
    hide Listed;
    Listed26();
    ListedStep(27); ListedStep(28); ListedStep(29); ListedStep(30);
  }

  lemma FirstCodes8()
    ensures FirstCode(0) == 0
    ensures FirstCode(1) == 0
    ensures FirstCode(2) == 0
    ensures FirstCode(3) == 0
    ensures FirstCode(4) == 0
    ensures FirstCode(5) == 0
    ensures FirstCode(6) == 0x14
    ensures FirstCode(7) == 0x5c
    ensures FirstCode(8) == 0xf8
  {
    hide FirstCode;
    FirstCodeStep(0); FirstCodeStep(1); FirstCodeStep(2); FirstCodeStep(3); FirstCodeStep(4);
    FirstCodeStep(5); FirstCodeStep(6); FirstCodeStep(7); FirstCodeStep(8);
  }

  lemma FirstCodes15()
    ensures FirstCode(9) == 0x1fc
    ensures FirstCode(10) == 0x3f8
    ensures FirstCode(11) == 0x7fa
    ensures FirstCode(12) == 0xffa
    ensures FirstCode(13) == 0x1ff8
    ensures FirstCode(14) == 0x3ffc
    ensures FirstCode(15) == 0x7ffc
  {
    hide FirstCode;
    FirstCodes8();
    FirstCodeStep(9); FirstCodeStep(10); FirstCodeStep(11); FirstCodeStep(12); FirstCodeStep(13);
    FirstCodeStep(14); FirstCodeStep(15);
  }

  lemma FirstCodes21()
    ensures FirstCode(16) == 0xfffe
    ensures FirstCode(17) == 0x1fffc
    ensures FirstCode(18) == 0x3fff8
    ensures FirstCode(19) == 0x7fff0
    ensures FirstCode(20) == 0xfffe6
    ensures FirstCode(21) == 0x1fffdc
  {
    hide FirstCode;
    FirstCodes15();
    FirstCodeStep(16); FirstCodeStep(17); FirstCodeStep(18); FirstCodeStep(19); FirstCodeStep(20);
    FirstCodeStep(21);
  }

  lemma FirstCodes26()
    ensures FirstCode(22) == 0x3fffd2
    ensures FirstCode(23) == 0x7fffd8
    ensures FirstCode(24) == 0xffffea
    ensures FirstCode(25) == 0x1ffffec
    ensures FirstCode(26) == 0x3ffffe0
  {
    hide FirstCode;
    FirstCodes21();
    FirstCodeStep(22); FirstCodeStep(23); FirstCodeStep(24); FirstCodeStep(25); FirstCodeStep(26);
  }

  lemma FirstCodes30()
    ensures FirstCode(27) == 0x7ffffde
    ensures FirstCode(28) == 0xfffffe2
    ensures FirstCode(29) == 0x1ffffffe
    ensures FirstCode(30) == 0x3ffffffc
  {
    hide FirstCode;
    FirstCodes26();
    FirstCodeStep(27); FirstCodeStep(28); FirstCodeStep(29); FirstCodeStep(30);
  }

  // ----- codes

  /** The symbol has this code, and is less than the next one of its length. */
  predicate HasCode(symbol: nat, code: nat, bits: nat, next: nat) {
    symbol < next && symbol <= EOS && CodeOf(symbol) == HuffmanCode(code, bits)
  }

  lemma Codes5(k: nat)
    requires k < 10
    ensures HasCode(Symbol5(k), 0 + k, 5, if k + 1 < 10 then Symbol5(k + 1) else SYMBOLS)
  {
    match k
    case 0 => case 1 => case 2 => case 3 => case 4 => case 5 => case 6 => case 7 => case 8 => case _ =>
  }

  lemma Codes6(k: nat)
    requires k < 26
    ensures HasCode(Symbol6(k), 0x14 + k, 6, if k + 1 < 26 then Symbol6(k + 1) else SYMBOLS)
  {
    match k
    case 0 => case 1 => case 2 => case 3 => case 4 => case 5 => case 6 => case 7 => case 8 => case 9 =>
    case 10 => case 11 => case 12 => case 13 => case 14 => case 15 => case 16 => case 17 => case 18 => case 19 =>
    case 20 => case 21 => case 22 => case 23 => case 24 => case _ =>
  }

  lemma Codes7(k: nat)
    requires k < 32
    ensures HasCode(Symbol7(k), 0x5c + k, 7, if k + 1 < 32 then Symbol7(k + 1) else SYMBOLS)
  {
    match k
    case 0 => case 1 => case 2 => case 3 => case 4 => case 5 => case 6 => case 7 => case 8 => case 9 =>
    case 10 => case 11 => case 12 => case 13 => case 14 => case 15 => case 16 => case 17 => case 18 => case 19 =>
    case 20 => case 21 => case 22 => case 23 => case 24 => case 25 => case 26 => case 27 => case 28 => case 29 =>
    case 30 => case _ =>
  }

  lemma Codes8(k: nat)
    requires k < 6
    ensures HasCode(Symbol8(k), 0xf8 + k, 8, if k + 1 < 6 then Symbol8(k + 1) else SYMBOLS)
  {
    match k
    case 0 => case 1 => case 2 => case 3 => case 4 => case _ =>
  }

  lemma Codes10(k: nat)
    requires k < 5
    ensures HasCode(Symbol10(k), 0x3f8 + k, 10, if k + 1 < 5 then Symbol10(k + 1) else SYMBOLS)
  {
    match k
    case 0 => case 1 => case 2 => case 3 => case _ =>
  }

  lemma Codes11(k: nat)
    requires k < 3
    ensures HasCode(Symbol11(k), 0x7fa + k, 11, if k + 1 < 3 then Symbol11(k + 1) else SYMBOLS)
  {
    match k
    case 0 => case 1 => case _ =>
  }

  lemma Codes12(k: nat)
    requires k < 2
    ensures HasCode(Symbol12(k), 0xffa + k, 12, if k + 1 < 2 then Symbol12(k + 1) else SYMBOLS)
  {
    match k
    case 0 => case _ =>
  }

  lemma Codes13(k: nat)
    requires k < 6
    ensures HasCode(Symbol13(k), 0x1ff8 + k, 13, if k + 1 < 6 then Symbol13(k + 1) else SYMBOLS)
  {
    match k
    case 0 => case 1 => case 2 => case 3 => case 4 => case _ =>
  }

  lemma Codes14(k: nat)
    requires k < 2
    ensures HasCode(Symbol14(k), 0x3ffc + k, 14, if k + 1 < 2 then Symbol14(k + 1) else SYMBOLS)
  {
    match k
    case 0 => case _ =>
  }

  lemma Codes15(k: nat)
    requires k < 3
    ensures HasCode(Symbol15(k), 0x7ffc + k, 15, if k + 1 < 3 then Symbol15(k + 1) else SYMBOLS)
  {
    match k
    case 0 => case 1 => case _ =>
  }

  lemma Codes19(k: nat)
    requires k < 3
    ensures HasCode(Symbol19(k), 0x7fff0 + k, 19, if k + 1 < 3 then Symbol19(k + 1) else SYMBOLS)
  {
    match k
    case 0 => case 1 => case _ =>
  }

  lemma Codes20(k: nat)
    requires k < 8
    ensures HasCode(Symbol20(k), 0xfffe6 + k, 20, if k + 1 < 8 then Symbol20(k + 1) else SYMBOLS)
  {
    match k
    case 0 => case 1 => case 2 => case 3 => case 4 => case 5 => case 6 => case _ =>
  }

  lemma Codes21(k: nat)
    requires k < 13
    ensures HasCode(Symbol21(k), 0x1fffdc + k, 21, if k + 1 < 13 then Symbol21(k + 1) else SYMBOLS)
  {
    match k
    case 0 => case 1 => case 2 => case 3 => case 4 => case 5 => case 6 => case 7 => case 8 => case 9 =>
    case 10 => case 11 => case _ =>
  }

  lemma Codes22(k: nat)
    requires k < 26
    ensures HasCode(Symbol22(k), 0x3fffd2 + k, 22, if k + 1 < 26 then Symbol22(k + 1) else SYMBOLS)
  {
    match k
    case 0 => case 1 => case 2 => case 3 => case 4 => case 5 => case 6 => case 7 => case 8 => case 9 =>
    case 10 => case 11 => case 12 => case 13 => case 14 => case 15 => case 16 => case 17 => case 18 => case 19 =>
    case 20 => case 21 => case 22 => case 23 => case 24 => case _ =>
  }

  lemma Codes23(k: nat)
    requires k < 29
    ensures HasCode(Symbol23(k), 0x7fffd8 + k, 23, if k + 1 < 29 then Symbol23(k + 1) else SYMBOLS)
  {
    match k
    case 0 => case 1 => case 2 => case 3 => case 4 => case 5 => case 6 => case 7 => case 8 => case 9 =>
    case 10 => case 11 => case 12 => case 13 => case 14 => case 15 => case 16 => case 17 => case 18 => case 19 =>
    case 20 => case 21 => case 22 => case 23 => case 24 => case 25 => case 26 => case 27 => case _ =>
  }

  lemma Codes24(k: nat)
    requires k < 12
    ensures HasCode(Symbol24(k), 0xffffea + k, 24, if k + 1 < 12 then Symbol24(k + 1) else SYMBOLS)
  {
    match k
    case 0 => case 1 => case 2 => case 3 => case 4 => case 5 => case 6 => case 7 => case 8 => case 9 =>
    case 10 => case _ =>
  }

  lemma Codes25(k: nat)
    requires k < 4
    ensures HasCode(Symbol25(k), 0x1ffffec + k, 25, if k + 1 < 4 then Symbol25(k + 1) else SYMBOLS)
  {
    match k
    case 0 => case 1 => case 2 => case _ =>
  }

  lemma Codes26(k: nat)
    requires k < 15
    ensures HasCode(Symbol26(k), 0x3ffffe0 + k, 26, if k + 1 < 15 then Symbol26(k + 1) else SYMBOLS)
  {
    match k
    case 0 => case 1 => case 2 => case 3 => case 4 => case 5 => case 6 => case 7 => case 8 => case 9 =>
    case 10 => case 11 => case 12 => case 13 => case _ =>
  }

  lemma Codes27(k: nat)
    requires k < 19
    ensures HasCode(Symbol27(k), 0x7ffffde + k, 27, if k + 1 < 19 then Symbol27(k + 1) else SYMBOLS)
  {
    match k
    case 0 => case 1 => case 2 => case 3 => case 4 => case 5 => case 6 => case 7 => case 8 => case 9 =>
    case 10 => case 11 => case 12 => case 13 => case 14 => case 15 => case 16 => case 17 => case _ =>
  }

  lemma Codes28(k: nat)
    requires k < 29
    ensures HasCode(Symbol28(k), 0xfffffe2 + k, 28, if k + 1 < 29 then Symbol28(k + 1) else SYMBOLS)
  {
    match k
    case 0 => case 1 => case 2 => case 3 => case 4 => case 5 => case 6 => case 7 => case 8 => case 9 =>
    case 10 => case 11 => case 12 => case 13 => case 14 => case 15 => case 16 => case 17 => case 18 => case 19 =>
    case 20 => case 21 => case 22 => case 23 => case 24 => case 25 => case 26 => case 27 => case _ =>
  }

  lemma Codes30(k: nat)
    requires k < 4
    ensures HasCode(Symbol30(k), 0x3ffffffc + k, 30, if k + 1 < 4 then Symbol30(k + 1) else SYMBOLS)
  {
    match k
    case 0 => case 1 => case 2 => case _ =>
  }

  /** There are 257 symbols in these lists, each list is in ascending order, and symbol `k` of a
      length has that length's first code plus `k`. */
  lemma CodesAreCanonical(bits: nat, k: nat)
    requires k < HowMany(bits)
    ensures SymbolOf(bits, k) <= EOS && Table()[SymbolOf(bits, k)] == HuffmanCode(FirstCode(bits) + k, bits)
    ensures k + 1 < HowMany(bits) ==> SymbolOf(bits, k) < SymbolOf(bits, k + 1)
    ensures Listed(30) == SYMBOLS
  {
    Listed30();
    FirstCodes8();
    FirstCodes15();
    FirstCodes21();
    FirstCodes26();
    FirstCodes30();
    hide FirstCode, CodeOf, Listed, Table, Symbol5, Symbol6, Symbol7, Symbol8, Symbol10, Symbol11, Symbol12,
         Symbol13, Symbol14, Symbol15, Symbol19, Symbol20, Symbol21, Symbol22, Symbol23, Symbol24,
         Symbol25, Symbol26, Symbol27, Symbol28, Symbol30;
    match bits
    case 5 => Codes5(k); case 6 => Codes6(k); case 7 => Codes7(k); case 8 => Codes8(k);
    case 10 => Codes10(k); case 11 => Codes11(k); case 12 => Codes12(k); case 13 => Codes13(k);
    case 14 => Codes14(k); case 15 => Codes15(k); case 19 => Codes19(k); case 20 => Codes20(k);
    case 21 => Codes21(k); case 22 => Codes22(k); case 23 => Codes23(k); case 24 => Codes24(k);
    case 25 => Codes25(k); case 26 => Codes26(k); case 27 => Codes27(k); case 28 => Codes28(k);
    case 30 => Codes30(k);
    case _ =>
  }
}
