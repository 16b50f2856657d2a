/** Binary prefix codes, given as a sequence with one code per symbol. A full binary tree
    with the codes at its leaves shows that the codes are prefix-free and complete. */
module PrefixCodes {

  type Bit = b: int | 0 <= b <= 1
  type Bits = seq<Bit>

  datatype CodeTree = Leaf(symbol: nat) | Fork(zero: CodeTree, one: CodeTree)

  /** Every leaf below the node at `path` carries the symbol whose code leads to it. */
  ghost predicate LeavesCarry(t: CodeTree, codes: seq<Bits>, path: Bits) {
    match t
    case Leaf(s) => s < |codes| && codes[s] == path
    case Fork(zero, one) => LeavesCarry(zero, codes, path + [0]) && LeavesCarry(one, codes, path + [1])
  }

  function Leaves(t: CodeTree): nat {
    match t
    case Leaf(_) => 1
    case Fork(zero, one) => Leaves(zero) + Leaves(one)
  }

  function Symbols(t: CodeTree): set<nat> {
    match t
    case Leaf(s) => {s}
    case Fork(zero, one) => Symbols(zero) + Symbols(one)
  }

  ghost predicate PrefixFree(codes: seq<Bits>) {
    forall s, t :: 0 <= s < |codes| && 0 <= t < |codes| && codes[s] <= codes[t] ==> s == t
  }

  ghost predicate RunsAlong(w: Bits, code: Bits) {
    code <= w || w <= code
  }

  ghost predicate RunsAlongSome(w: Bits, codes: seq<Bits>) {
    exists s :: 0 <= s < |codes| && RunsAlong(w, codes[s])
  }

  /** Every string of bits runs along some code: none can leave the tree. */
  ghost predicate Complete(codes: seq<Bits>) {
    forall w: Bits :: RunsAlongSome(w, codes)
  }

  /** Follows `w` down from `t` to a leaf; -1 when `w` ends first. */
  function Walk(t: CodeTree, w: Bits): int {
    match t
    case Leaf(s) => s
    case Fork(zero, one) => if w == [] then -1 else Walk(if w[0] == 0 then zero else one, w[1..])
  }

  lemma {:induction false} CodeLeadsToLeaf(t: CodeTree, codes: seq<Bits>, path: Bits, s: nat, more: Bits)
    requires LeavesCarry(t, codes, path) && s in Symbols(t)
    ensures s < |codes| && path <= codes[s]
    ensures Walk(t, codes[s][|path|..] + more) == s
  {
    match t
    case Leaf(_) =>
    case Fork(zero, one) =>
      var b: Bit := if s in Symbols(zero) then 0 else 1;
      CodeLeadsToLeaf(if b == 0 then zero else one, codes, path + [b], s, more);
      assert (codes[s][|path|..] + more)[1..] == codes[s][|path| + 1..] + more;
  }

  lemma OneWayOnly(path: Bits, code: Bits)
    ensures !(path + [0] <= code && path + [1] <= code)
  {
    assert path + [0] <= code ==> code[|path|] == (path + [0])[|path|];
    assert path + [1] <= code ==> code[|path|] == (path + [1])[|path|];
  }

  lemma {:induction false} LeavesAreDistinct(t: CodeTree, codes: seq<Bits>, path: Bits)
    requires LeavesCarry(t, codes, path)
    ensures |Symbols(t)| == Leaves(t)
    ensures forall s :: s in Symbols(t) ==> s < |codes|
  {
    match t
    case Leaf(_) =>
    case Fork(zero, one) =>
      LeavesAreDistinct(zero, codes, path + [0]);
      LeavesAreDistinct(one, codes, path + [1]);
      forall s | s in Symbols(zero) && s in Symbols(one)
        ensures false
      {
        CodeLeadsToLeaf(zero, codes, path + [0], s, []);
        CodeLeadsToLeaf(one, codes, path + [1], s, []);
        OneWayOnly(path, codes[s]);
      }
      assert Symbols(zero) !! Symbols(one);
  }

  lemma {:induction false} FullSubsetOfRange(s: set<nat>, n: nat)
    requires forall x :: x in s ==> x < n
    ensures |s| <= n
    ensures |s| == n ==> forall x :: 0 <= x < n ==> x in s
  {
    if n > 0 {
      FullSubsetOfRange(s - {n - 1}, n - 1);
      assert |s| == n ==> n - 1 in s;
    } else {
      assert s == {};
    }
  }

  lemma {:induction false} SomeCodeAlong(t: CodeTree, codes: seq<Bits>, path: Bits, w: Bits) returns (s: nat)
    requires LeavesCarry(t, codes, path)
    ensures s < |codes| && RunsAlong(path + w, codes[s])
  {
    match t
    case Leaf(x) =>
      s := x;
    case Fork(zero, one) =>
      if w == [] {
        s := SomeCodeAlong(zero, codes, path + [0], []);
      } else {
        s := SomeCodeAlong(if w[0] == 0 then zero else one, codes, path + [w[0]], w[1..]);
        assert path + [w[0]] + w[1..] == path + w;
      }
  }

  /** A full tree with as many leaves as there are codes makes the code prefix-free and complete. */
  lemma FullTreeMeansPrefixCode(t: CodeTree, codes: seq<Bits>)
    requires LeavesCarry(t, codes, []) && Leaves(t) == |codes|
    ensures PrefixFree(codes) && Complete(codes)
  {
    LeavesAreDistinct(t, codes, []);
    FullSubsetOfRange(Symbols(t), |codes|);
    forall x, y | 0 <= x < |codes| && 0 <= y < |codes| && codes[x] <= codes[y]
      ensures x == y
    {
      var more := codes[y][|codes[x]|..];
      CodeLeadsToLeaf(t, codes, [], x, more);
      CodeLeadsToLeaf(t, codes, [], y, []);
      assert codes[x][0..] + more == codes[y][0..] + [];
    }
    forall w: Bits
      ensures RunsAlongSome(w, codes)
    {
      var s := SomeCodeAlong(t, codes, [], w);
      assert [] + w == w;
    }
  }

  lemma ExtendedPrefix(p: Bits, partial: Bits, b: Bit)
    ensures p <= partial + [b] <==> p <= partial || p == partial + [b]
  {
  }
}
