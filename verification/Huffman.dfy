/** Huffman-coded strings (section 5.2 of RFC 7541): building the decoding tree from the code
    table, and decoding by walking it. */
module Huffman {
  import opened Wrappers
  import opened Octets
  import opened PrefixCodes
  import opened HuffmanTable
  import opened HuffmanStrings

  // ----- the decoding tree as a vector of nodes

  /** Children are indices into the vector, or -1; `symbol` is -1 at an inner node. */
  datatype HuffmanNode = HuffmanNode(zero: int, one: int, symbol: int) {
    function Child(b: Bit): int {
      if b == 0 then zero else one
    }

    function WithChild(b: Bit, child: int): HuffmanNode {
      if b == 0 then this.(zero := child) else this.(one := child)
    }
  }

  /** `p` is a path that the first `n` codes and the first bits of one more have created. */
  ghost predicate Created(p: Bits, codes: seq<Bits>, n: nat, partial: Bits)
    requires n <= |codes|
  {
    p <= partial || exists s :: 0 <= s < n && p <= codes[s]
  }

  /** `index` is the inverse of `paths`, and the root has the empty path. */
  ghost predicate Indexed(paths: seq<Bits>, index: map<Bits, nat>) {
    && |paths| > 0 && paths[0] == []
    && (forall i :: 0 <= i < |paths| ==> paths[i] in index && index[paths[i]] == i)
    && (forall p :: p in index ==> index[p] < |paths| && paths[index[p]] == p)
  }

  /** There is a node for exactly the created paths. */
  ghost predicate Grown(index: map<Bits, nat>, codes: seq<Bits>, n: nat, partial: Bits)
    requires n <= |codes|
  {
    forall p :: p in index <==> Created(p, codes, n, partial)
  }

  ghost function ChildOf(path: Bits, b: Bit, index: map<Bits, nat>): int {
    if path + [b] in index then index[path + [b]] else -1
  }

  /** The child links are those between the paths. */
  ghost predicate Linked(nodes: seq<HuffmanNode>, paths: seq<Bits>, index: map<Bits, nat>) {
    && |nodes| == |paths|
    && forall i, b: Bit :: 0 <= i < |nodes| ==> nodes[i].Child(b) == ChildOf(paths[i], b, index)
  }

  /** A node carries the symbol whose code is its path, if that is one of the first `n`. */
  ghost predicate Marked(nodes: seq<HuffmanNode>, paths: seq<Bits>, codes: seq<Bits>, n: nat)
    requires n <= |codes|
  {
    && |nodes| == |paths|
    && (forall i :: 0 <= i < |nodes| && 0 <= nodes[i].symbol ==>
        nodes[i].symbol < n && codes[nodes[i].symbol] == paths[i])
    && (forall i, s :: 0 <= i < |nodes| && 0 <= s < n && paths[i] == codes[s] ==> nodes[i].symbol == s)
  }

  ghost predicate Represents(nodes: seq<HuffmanNode>, paths: seq<Bits>, index: map<Bits, nat>,
                             codes: seq<Bits>, n: nat, partial: Bits)
    requires n <= |codes|
  {
    && Indexed(paths, index) && Grown(index, codes, n, partial)
    && Linked(nodes, paths, index) && Marked(nodes, paths, codes, n)
  }

  // ----- hanging a new node below `node`

  function Hang(nodes: seq<HuffmanNode>, node: nat, b: Bit): seq<HuffmanNode>
    requires node < |nodes|
  {
    nodes[node := nodes[node].WithChild(b, |nodes|)] + [HuffmanNode(-1, -1, -1)]
  }

  lemma ChildlessMeansAbsent(nodes: seq<HuffmanNode>, paths: seq<Bits>, index: map<Bits, nat>, node: nat, b: Bit)
    requires Linked(nodes, paths, index) && node < |nodes|
    ensures nodes[node].Child(b) < 0 <==> paths[node] + [b] !in index
    ensures 0 <= nodes[node].Child(b) ==> nodes[node].Child(b) == index[paths[node] + [b]]
  {
    assert nodes[node].Child(b) == ChildOf(paths[node], b, index);
  }

  lemma HangIndexed(paths: seq<Bits>, index: map<Bits, nat>, path: Bits)
    requires Indexed(paths, index) && path !in index
    ensures Indexed(paths + [path], index[path := |paths|])
  {
  }

  lemma HangGrown(index: map<Bits, nat>, codes: seq<Bits>, n: nat, partial: Bits, b: Bit, i: nat)
    requires n <= |codes| && Grown(index, codes, n, partial)
    ensures Grown(index[partial + [b] := i], codes, n, partial + [b])
  {
    forall p
      ensures p in index[partial + [b] := i] <==> Created(p, codes, n, partial + [b])
    {
      ExtendedPrefix(p, partial, b);
      assert p in index <==> Created(p, codes, n, partial);
    }
  }

  lemma NothingBelow(index: map<Bits, nat>, codes: seq<Bits>, n: nat, partial: Bits, path: Bits, c: Bit)
    requires n <= |codes| && Grown(index, codes, n, partial) && path !in index
    ensures path + [c] !in index
  {
    assert !Created(path, codes, n, partial);
    assert path + [c] <= partial ==> path <= partial;
    assert forall s :: 0 <= s < n && path + [c] <= codes[s] ==> path <= codes[s];
  }

  lemma SameStep(p: Bits, b: Bit, q: Bits, c: Bit)
    requires p + [b] == q + [c]
    ensures p == q && b == c
  {
    assert (p + [b])[..|p|] == p && (q + [c])[..|q|] == q;
    assert (p + [b])[|p|] == b && (q + [c])[|q|] == c;
  }

  lemma HangLinked(nodes: seq<HuffmanNode>, paths: seq<Bits>, index: map<Bits, nat>, node: nat, b: Bit)
    requires Linked(nodes, paths, index) && Indexed(paths, index) && node < |nodes|
    requires paths[node] + [b] !in index
    requires forall c: Bit :: paths[node] + [b] + [c] !in index
    ensures Linked(Hang(nodes, node, b), paths + [paths[node] + [b]], index[paths[node] + [b] := |nodes|])
  {
    var path := paths[node] + [b];
    var nodes', paths', index' := Hang(nodes, node, b), paths + [path], index[path := |nodes|];
    forall i, c: Bit | 0 <= i < |nodes'|
      ensures nodes'[i].Child(c) == ChildOf(paths'[i], c, index')
    {
      if i < |nodes| {
        assert nodes[i].Child(c) == ChildOf(paths[i], c, index);
        if paths[i] + [c] == path {
          SameStep(paths[i], c, paths[node], b);
          assert index[paths[i]] == i && index[paths[node]] == node;
        }
      } else {
        assert |path + [c]| != |path|;
      }
    }
  }

  lemma HangMarked(nodes: seq<HuffmanNode>, paths: seq<Bits>, codes: seq<Bits>, n: nat,
                   index: map<Bits, nat>, partial: Bits, node: nat, b: Bit)
    requires n <= |codes| && Marked(nodes, paths, codes, n) && node < |nodes|
    requires Grown(index, codes, n, partial) && paths[node] + [b] !in index
    ensures Marked(Hang(nodes, node, b), paths + [paths[node] + [b]], codes, n)
  {
    forall s | 0 <= s < n
      ensures paths[node] + [b] != codes[s]
    {
      assert Created(codes[s], codes, n, partial);
    }
  }

  lemma AddChild(nodes: seq<HuffmanNode>, paths: seq<Bits>, index: map<Bits, nat>,
                 codes: seq<Bits>, n: nat, partial: Bits, node: nat, b: Bit)
    requires n <= |codes| && Represents(nodes, paths, index, codes, n, partial)
    requires |nodes| == |paths| && node < |nodes| && paths[node] == partial && nodes[node].Child(b) < 0
    ensures Represents(Hang(nodes, node, b), paths + [partial + [b]], index[partial + [b] := |nodes|],
                       codes, n, partial + [b])
  {
    hide Indexed, Grown, Marked, Linked, Hang;
    ChildlessMeansAbsent(nodes, paths, index, node, b);
    HangIndexed(paths, index, partial + [b]);
    HangGrown(index, codes, n, partial, b, |nodes|);
    forall c: Bit
      ensures partial + [b] + [c] !in index
    {
      NothingBelow(index, codes, n, partial, partial + [b], c);
    }
    HangLinked(nodes, paths, index, node, b);
    HangMarked(nodes, paths, codes, n, index, partial, node, b);
  }

  /** Following a link that exists keeps the representation. */
  lemma FollowChild(nodes: seq<HuffmanNode>, paths: seq<Bits>, index: map<Bits, nat>,
                    codes: seq<Bits>, n: nat, partial: Bits, node: nat, b: Bit)
    requires n <= |codes| && Represents(nodes, paths, index, codes, n, partial)
    requires |nodes| == |paths| && node < |nodes| && paths[node] == partial && nodes[node].Child(b) >= 0
    ensures nodes[node].Child(b) < |nodes| && paths[nodes[node].Child(b)] == partial + [b]
    ensures Represents(nodes, paths, index, codes, n, partial + [b])
  {
    hide Grown, Marked;
    ChildlessMeansAbsent(nodes, paths, index, node, b);
    var i := index[partial + [b]];
    HangGrown(index, codes, n, partial, b, i);
    assert index[partial + [b] := i] == index;
  }

  // ----- writing the next symbol at the node its code leads to

  lemma FinishGrown(index: map<Bits, nat>, codes: seq<Bits>, n: nat)
    requires n < |codes| && Grown(index, codes, n, codes[n])
    ensures Grown(index, codes, n + 1, [])
  {
    forall p
      ensures p in index <==> Created(p, codes, n + 1, [])
    {
      assert p in index <==> Created(p, codes, n, codes[n]);
      if p <= codes[n] {
        assert 0 <= n < n + 1 && p <= codes[n];
      }
    }
  }

  lemma SetSymbol(nodes: seq<HuffmanNode>, paths: seq<Bits>, index: map<Bits, nat>,
                  codes: seq<Bits>, n: nat, node: nat)
    requires n < |codes| && Represents(nodes, paths, index, codes, n, codes[n])
    requires |nodes| == |paths| && node < |nodes| && paths[node] == codes[n] && nodes[node].symbol < 0
    ensures Represents(nodes[node := nodes[node].(symbol := n)], paths, index, codes, n + 1, [])
  {
    hide Grown;
    FinishGrown(index, codes, n);
    var nodes' := nodes[node := nodes[node].(symbol := n)];
    assert Linked(nodes', paths, index) by {
      forall i, b: Bit | 0 <= i < |nodes'|
        ensures nodes'[i].Child(b) == ChildOf(paths[i], b, index)
      {
        assert nodes'[i].Child(b) == nodes[i].Child(b);
      }
    }
    assert Marked(nodes', paths, codes, n + 1) by {
      assert index[paths[node]] == node;
    }
  }

  /** The first `n` codes of a table are pairwise different. */
  ghost predicate Distinct(codes: seq<Bits>, n: nat)
    requires n <= |codes|
  {
    forall s, t :: 0 <= s < t < n ==> codes[s] != codes[t]
  }

  /** The tree after `n` symbols. */
  ghost predicate TreeUpTo(nodes: seq<HuffmanNode>, codes: seq<Bits>, n: nat)
    requires n <= |codes|
  {
    exists paths, index :: Represents(nodes, paths, index, codes, n, []) && |paths| == |nodes|
  }

  /** The tree after `n` symbols, with the path of the next one in place and ending at `node`. */
  ghost predicate PathLaid(nodes: seq<HuffmanNode>, codes: seq<Bits>, n: nat, node: nat)
    requires n < |codes|
  {
    && node < |nodes|
    && exists paths, index :: Represents(nodes, paths, index, codes, n, codes[n]) && |paths| == |nodes|
        && paths[node] == codes[n]
  }

  lemma FinishSymbol(nodes: seq<HuffmanNode>, codes: seq<Bits>, n: nat, node: nat)
    requires n < |codes| && PathLaid(nodes, codes, n, node) && Distinct(codes, n)
    ensures 0 <= nodes[node].symbol ==> !Distinct(codes, |codes|)
    ensures nodes[node].symbol < 0 ==>
              && TreeUpTo(nodes[node := nodes[node].(symbol := n)], codes, n + 1)
              && Distinct(codes, n + 1)
  {
    hide Grown, Linked, Indexed;
    var paths, index :| Represents(nodes, paths, index, codes, n, codes[n]) && |paths| == |nodes|
        && paths[node] == codes[n];
    if nodes[node].symbol < 0 {
      SetSymbol(nodes, paths, index, codes, n, node);
    }
  }

  lemma NextBit(code: nat, bits: nat, i: nat)
    requires i < bits
    ensures BitsOf(code, bits)[..i + 1] == BitsOf(code, bits)[..i] + [ShiftRight(code, bits - i - 1) % 2]
  {
    BitByShift(code, bits, i);
  }

  lemma EmptyTree(codes: seq<Bits>)
    ensures TreeUpTo([HuffmanNode(-1, -1, -1)], codes, 0)
  {
    assert Represents([HuffmanNode(-1, -1, -1)], [[]], map[[] := 0], codes, 0, []);
  }

  lemma StartPath(nodes: seq<HuffmanNode>, codes: seq<Bits>, n: nat)
    returns (paths: seq<Bits>, index: map<Bits, nat>)
    requires n < |codes| && TreeUpTo(nodes, codes, n)
    ensures Represents(nodes, paths, index, codes, n, codes[n][..0])
    ensures |paths| == |nodes| > 0 && paths[0] == codes[n][..0]
  {
    paths, index :| Represents(nodes, paths, index, codes, n, []) && |paths| == |nodes|;
    assert codes[n][..0] == [];
  }

  lemma EndPath(nodes: seq<HuffmanNode>, codes: seq<Bits>, n: nat, node: nat, paths: seq<Bits>, index: map<Bits, nat>)
    requires n < |codes| && Represents(nodes, paths, index, codes, n, codes[n][..|codes[n]|])
    requires node < |nodes| == |paths| && paths[node] == codes[n][..|codes[n]|]
    ensures PathLaid(nodes, codes, n, node)
  {
    assert codes[n][..|codes[n]|] == codes[n];
  }

  /** Lays the path of symbol `n`, bit by bit from the most significant. */
  method LayPath(nodes0: seq<HuffmanNode>, table: seq<HuffmanCode>, n: nat)
    returns (nodes: seq<HuffmanNode>, node: nat)
    requires n < |table| && TreeUpTo(nodes0, Codes(table), n)
    ensures PathLaid(nodes, Codes(table), n, node)
  {
    hide TreeUpTo, PathLaid, Represents;
    ghost var codes := Codes(table);
    var code, bits := table[n].code, table[n].bits;
    nodes, node := nodes0, 0;
    ghost var paths: seq<Bits>, index: map<Bits, nat> := StartPath(nodes, codes, n);
    for bitIndex := 0 to bits
      invariant node < |nodes| == |paths| && paths[node] == codes[n][..bitIndex]
      invariant Represents(nodes, paths, index, codes, n, codes[n][..bitIndex])
    {
      var bit: Bit := ShiftRight(code, bits - bitIndex - 1) % 2;
      ghost var partial := codes[n][..bitIndex];
      NextBit(code, bits, bitIndex);
      if nodes[node].Child(bit) < 0 {
        AddChild(nodes, paths, index, codes, n, partial, node, bit);
        paths, index := paths + [partial + [bit]], index[partial + [bit] := |nodes|];
        nodes := Hang(nodes, node, bit);
        node := |nodes| - 1;
      } else {
        FollowChild(nodes, paths, index, codes, n, partial, node, bit);
        node := nodes[node].Child(bit);
      }
    }
    EndPath(nodes, codes, n, node, paths, index);
  }

  /** Adds symbol `n`, or reports that its code is taken. */
  method AddSymbol(nodes0: seq<HuffmanNode>, table: seq<HuffmanCode>, n: nat)
    returns (r: Result<seq<HuffmanNode>, HuffmanError>)
    requires n < |table| && TreeUpTo(nodes0, Codes(table), n) && Distinct(Codes(table), n)
    ensures r.Ok? ==> TreeUpTo(r.value, Codes(table), n + 1) && Distinct(Codes(table), n + 1)
    ensures r.Err? ==> r.error == DuplicateCode && !Distinct(Codes(table), |table|)
  {
    var nodes, node := LayPath(nodes0, table, n);
    FinishSymbol(nodes, Codes(table), n, node);
    if nodes[node].symbol >= 0 {
      r := Err(DuplicateCode);
    } else {
      r := Ok(nodes[node := nodes[node].(symbol := n)]);
    }
  }

  /** Builds the decoding tree of any table; it fails exactly on a repeated code. */
  method BuildHuffmanTree(table: seq<HuffmanCode>) returns (r: Result<seq<HuffmanNode>, HuffmanError>)
    ensures r.Ok? ==> TreeUpTo(r.value, Codes(table), |table|)
    ensures r.Ok? <==> Distinct(Codes(table), |table|)
  {
    var nodes := [HuffmanNode(-1, -1, -1)];
    EmptyTree(Codes(table));
    hide TreeUpTo;
    for symbol := 0 to |table|
      invariant TreeUpTo(nodes, Codes(table), symbol) && Distinct(Codes(table), symbol)
    {
      var added := AddSymbol(nodes, table, symbol);
      if added.Err? {
        return added;
      }
      nodes := added.value;
    }
    r := Ok(nodes);
  }

  // ----- decoding

  /** What the tree says about one more bit after the path of `node`. */
  lemma StepInTree(tree: seq<HuffmanNode>, paths: seq<Bits>, index: map<Bits, nat>, codes: seq<Bits>, node: nat, b: Bit)
    requires IsStringCode(codes) && Represents(tree, paths, index, codes, |codes|, [])
    requires node < |tree| == |paths|
    ensures var p := paths[node] + [b]; var next := tree[node].Child(b);
      && (next < 0 <==> !StartsSomeCode(codes, p))
      && (next >= 0 ==> next < |tree| && paths[next] == p)
      && (next >= 0 && tree[next].symbol < 0 ==> !IsCode(codes, p))
      && (next >= 0 && tree[next].symbol >= 0 ==> IsCode(codes, p) && SymbolOf(codes, p) == tree[next].symbol)
      && (next >= 0 ==> |p| <= 30)
  {
    var p := paths[node] + [b];
    ChildlessMeansAbsent(tree, paths, index, node, b);
    assert p in index <==> Created(p, codes, |codes|, []);
    assert p in index <==> StartsSomeCode(codes, p);
    if tree[node].Child(b) >= 0 && IsCode(codes, p) {
      assert tree[index[p]].symbol == SymbolOf(codes, p);
    }
  }

  lemma PrependNothing(r: Result<Bytes, HuffmanError>)
    ensures Prepend([], r) == r
  {
    if r.Ok? {
      assert [] + r.value == r.value;
    }
  }

  lemma PrependTwice(a: Bytes, b: Bytes, r: Result<Bytes, HuffmanError>)
    ensures Prepend(a, Prepend(b, r)) == Prepend(a + b, r)
  {
    if r.Ok? {
      assert a + (b + r.value) == a + b + r.value;
    }
  }

  /** The bits of `octet` below its bit `k`, and then those of `rest`. */
  ghost function BitsBelow(octet: Byte, k: nat, rest: Bytes): Bits
    requires k <= 8
  {
    BitsOf(octet, 8)[8 - k..] + BitsOfBytes(rest)
  }

  lemma OneBitFurther(octet: Byte, k: nat, rest: Bytes)
    requires 0 < k <= 8
    ensures BitsBelow(octet, k, rest) == [ShiftRight(octet, k - 1) % 2] + BitsBelow(octet, k - 1, rest)
  {
    BitByShift(octet, 8, 8 - k);
  }

  /** The local variables of the decoding loop. */
  datatype Walker = Walker(output: Bytes, node: nat, pendingCode: nat, pendingBits: nat) {
    ghost predicate At(paths: seq<Bits>) {
      && node < |paths|
      && pendingBits == |paths[node]| <= 30
      && pendingCode == ValueOf(paths[node])
    }

    /** The outcome of the whole decoding, if `rest` are the bits that remain. */
    ghost function Outcome(paths: seq<Bits>, codes: seq<Bits>, rest: Bits): Result<Bytes, HuffmanError>
      requires At(paths) && |codes| == SYMBOLS
    {
      Prepend(output, DecodeBits(codes, paths[node], rest))
    }
  }

  /** One iteration of the inner loop. */
  method WalkBit(tree: seq<HuffmanNode>, w: Walker, bit: Bit, ghost rest: Bits,
                 ghost codes: seq<Bits>, ghost paths: seq<Bits>, ghost index: map<Bits, nat>)
    returns (r: Result<Walker, HuffmanError>)
    requires IsStringCode(codes) && Represents(tree, paths, index, codes, |codes|, [])
    requires |tree| == |paths| > 0 && paths[0] == [] && w.At(paths)
    ensures r.Ok? ==> r.value.At(paths) && r.value.Outcome(paths, codes, rest) == w.Outcome(paths, codes, [bit] + rest)
    ensures r.Err? ==> w.Outcome(paths, codes, [bit] + rest) == Err(r.error)
  {
    StepInTree(tree, paths, index, codes, w.node, bit);
    hide Represents, StartsSomeCode, IsCode, SymbolOf;
    ghost var p := paths[w.node] + [bit];
    assert p[..|p| - 1] == paths[w.node];
    assert ([bit] + rest)[1..] == rest;
    var next := tree[w.node].Child(bit);
    if next < 0 {
      return Err(InvalidCode);
    }
    if tree[next].symbol >= 0 {
      if tree[next].symbol == EOS {
        return Err(EosInString);
      }
      PrependTwice(w.output, [tree[next].symbol], DecodeBits(codes, [], rest));
      r := Ok(Walker(w.output + [tree[next].symbol], 0, 0, 0));
    } else {
      r := Ok(Walker(w.output, next, 2 * w.pendingCode + bit, w.pendingBits + 1));
    }
  }

  /** The inner loop: the eight bits of one octet. */
  method WalkOctet(tree: seq<HuffmanNode>, w0: Walker, octet: Byte, ghost later: Bytes,
                   ghost codes: seq<Bits>, ghost paths: seq<Bits>, ghost index: map<Bits, nat>)
    returns (r: Result<Walker, HuffmanError>)
    requires IsStringCode(codes) && Represents(tree, paths, index, codes, |codes|, [])
    requires |tree| == |paths| > 0 && paths[0] == [] && w0.At(paths)
    ensures r.Ok? ==>
        r.value.At(paths)
            && r.value.Outcome(paths, codes, BitsBelow(octet, 0, later))
                == w0.Outcome(paths, codes, BitsBelow(octet, 8, later))
    ensures r.Err? ==> w0.Outcome(paths, codes, BitsBelow(octet, 8, later)) == Err(r.error)
  {
    hide Represents, Walker.Outcome, BitsBelow;
    var w := w0;
    for k := 8 downto 0
      invariant w.At(paths)
      invariant w.Outcome(paths, codes, BitsBelow(octet, k, later))
          == w0.Outcome(paths, codes, BitsBelow(octet, 8, later))
    {
      OneBitFurther(octet, k + 1, later);
      var step := WalkBit(tree, w, ShiftRight(octet, k) % 2, BitsBelow(octet, k, later), codes, paths, index);
      if step.Err? {
        return Err(step.error);
      }
      w := step.value;
    }
    r := Ok(w);
  }

  /** The test of the bits left over at the end. */
  lemma PaddingTest(w: Walker, paths: seq<Bits>, codes: seq<Bits>)
    requires w.At(paths) && |codes| == SYMBOLS
    ensures w.Outcome(paths, codes, []) ==
            if w.pendingBits <= 7 && w.pendingCode == PowerOfTwo(w.pendingBits) - 1 then Ok(w.output)
                else Err(InvalidPadding)
  {
    ValueBound(paths[w.node]);
    assert w.output + [] == w.output;
  }

  lemma SplitFirstOctet(encoded: Bytes, i: nat)
    requires i < |encoded|
    ensures BitsOfBytes(encoded[i..]) == BitsBelow(encoded[i], 8, encoded[i + 1..])
    ensures BitsBelow(encoded[i], 0, encoded[i + 1..]) == BitsOfBytes(encoded[i + 1..])
  {
    assert encoded[i..][1..] == encoded[i + 1..];
  }

  /** `hpack_decode_huffman` on a finished tree. */
  method WalkTree(tree: seq<HuffmanNode>, ghost codes: seq<Bits>, encoded: Bytes)
    returns (r: Result<Bytes, HuffmanError>)
    requires IsStringCode(codes) && TreeUpTo(tree, codes, |codes|)
    ensures r == HuffmanText(codes, encoded)
  {
    ghost var paths: seq<Bits>, index: map<Bits, nat> :|
      Represents(tree, paths, index, codes, |codes|, []) && |paths| == |tree|;
    var w := Walker([], 0, 0, 0);
    assert |paths| > 0 && paths[0] == [] && w.At(paths);
    PrependNothing(HuffmanText(codes, encoded));
    assert encoded[0..] == encoded;
    assert w.Outcome(paths, codes, BitsOfBytes(encoded[0..])) == HuffmanText(codes, encoded);
    hide Represents, TreeUpTo, IsStringCode, HuffmanText, Walker.Outcome, BitsBelow;
    for i := 0 to |encoded|
      invariant w.At(paths) && w.Outcome(paths, codes, BitsOfBytes(encoded[i..])) == HuffmanText(codes, encoded)
    {
      SplitFirstOctet(encoded, i);
      var step := WalkOctet(tree, w, encoded[i], encoded[i + 1..], codes, paths, index);
      if step.Err? {
        return Err(step.error);
      }
      w := step.value;
    }
    assert encoded[|encoded|..] == [];
    PaddingTest(w, paths, codes);
    if w.pendingBits != 0 {
      if w.pendingBits > 7 || w.pendingCode != PowerOfTwo(w.pendingBits) - 1 {
        return Err(InvalidPadding);
      }
    }
    r := Ok(w.output);
  }

  /** `hpack_decode_huffman` with the tree that `huffman_tree` keeps. */
  method DecodeHuffman(encoded: Bytes) returns (r: Result<Bytes, HuffmanError>)
    ensures r == HuffmanText(Codes(Table()), encoded)
  {
    hide CodeOf, Represents, TreeUpTo;
    TableIsStringCode();
    var tree := BuildHuffmanTree(Table());
    r := WalkTree(tree.value, Codes(Table()), encoded);
  }
}
