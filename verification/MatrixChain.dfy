/** Matrix-chain multiplication (Matrixchain.cpp): the tables of cheapest costs and of split positions, and the
    parenthesised expression printed from the latter. */
module MatrixChain {

  const INT_MAX := 2147483647

  /** A way to multiply out a chain of matrices; a node's left part ends with matrix k. */
  datatype Tree = Leaf(i: int) | Node(k: int, left: Tree, right: Tree)

  /** The tree multiplies matrices i..j. */
  predicate Covers(t: Tree, i: int, j: int) {
    match t
    case Leaf(m) => i == m == j
    case Node(k, l, r) => i <= k < j && Covers(l, i, k) && Covers(r, k + 1, j)
  }

  function Leaves(t: Tree): seq<int> {
    match t
    case Leaf(i) => [i]
    case Node(_, l, r) => Leaves(l) + Leaves(r)
  }

  /** Its leaves are the matrices i..j in this order. */
  lemma {:induction false} CoversInOrder(t: Tree, i: int, j: int)
    requires Covers(t, i, j)
    ensures i <= j && |Leaves(t)| == j - i + 1 && forall p :: 0 <= p < |Leaves(t)| ==> Leaves(t)[p] == i + p
  {
    match t
    case Leaf(_) =>
    case Node(k, l, r) =>
      CoversInOrder(l, i, k);
      CoversInOrder(r, k + 1, j);
  }

  // ----- costs -----

  /** Multiplying i..k by k+1..j, where matrix m has A[m - 1] rows and A[m] columns. */
  function Product(A: seq<int>, i: int, k: int, j: int): int
    requires 1 <= i <= k < j < |A|
  {
    A[i - 1] * A[k] * A[j]
  }

  function Cost(A: seq<int>, t: Tree, i: int, j: int): int
    requires 1 <= i <= j < |A| && Covers(t, i, j)
  {
    match t
    case Leaf(_) => 0
    case Node(k, l, r) => Cost(A, l, i, k) + Cost(A, r, k + 1, j) + Product(A, i, k, j)
  }

  /** c is the cost of a cheapest way to multiply i..j. */
  ghost predicate Cheapest(A: seq<int>, i: int, j: int, c: int)
    requires 1 <= i <= j < |A|
  {
    && (exists t :: Covers(t, i, j) && Cost(A, t, i, j) == c)
    && forall t :: Covers(t, i, j) ==> c <= Cost(A, t, i, j)
  }

  lemma {:induction false} CheapestOne(A: seq<int>, i: int)
    requires 1 <= i < |A|
    ensures forall c :: Cheapest(A, i, i, c) <==> c == 0
  {
    assert Covers(Leaf(i), i, i) && Cost(A, Leaf(i), i, i) == 0;
    forall t | Covers(t, i, i) ensures Cost(A, t, i, i) == 0 {}
  }

  ghost predicate CheapestBehind(A: seq<int>, k: int, j: int, c: int)
    requires 0 <= k < j < |A|
  {
    Cheapest(A, k + 1, j, c)
  }

  /** The cost of splitting behind k, with the cheapest costs of the parts. */
  ghost predicate SplitCost(A: seq<int>, i: int, k: int, j: int, c: int)
    requires 1 <= i <= k < j < |A|
  {
    exists a, b :: Cheapest(A, i, k, a) && CheapestBehind(A, k, j, b) && c == a + b + Product(A, i, k, j)
  }

  /** No split of cheapest parts costs INT_MAX or more. */
  ghost predicate CostsFit(A: seq<int>) {
    forall i, k, j, c :: 1 <= i <= k < j < |A| && SplitCost(A, i, k, j, c) ==> c < INT_MAX
  }

  /** Splitting behind k costs at least c. */
  ghost predicate NoBetter(A: seq<int>, i: int, k: int, j: int, c: int)
    requires 1 <= i <= k < j < |A|
  {
    exists d :: SplitCost(A, i, k, j, d) && c <= d
  }

  /** The cheapest split is the cheapest way. */
  lemma {:induction false} CheapestSplit(A: seq<int>, i: int, j: int, at: int, c: int)
    requires 1 <= i <= at < j < |A| && SplitCost(A, i, at, j, c)
    requires forall k :: i <= k < j ==> NoBetter(A, i, k, j, c)
    ensures Cheapest(A, i, j, c)
  {
    var a, b :| Cheapest(A, i, at, a) && CheapestBehind(A, at, j, b) && c == a + b + Product(A, i, at, j);
    var l := CheapestTree(A, i, at, a);
    var r := CheapestTree(A, at + 1, j, b);
    hide Cheapest;
    assert Covers(Node(at, l, r), i, j) && Cost(A, Node(at, l, r), i, j) == c;
    forall t | Covers(t, i, j) ensures c <= Cost(A, t, i, j) {
      assert NoBetter(A, i, t.k, j, c);
      NoCheaper(A, i, j, c, t);
    }
    IsCheapest(A, i, j, c, Node(at, l, r));
  }

  lemma {:induction false} CheapestTree(A: seq<int>, i: int, j: int, c: int) returns (t: Tree)
    requires 1 <= i <= j < |A| && Cheapest(A, i, j, c)
    ensures Covers(t, i, j) && Cost(A, t, i, j) == c
  {
    t :| Covers(t, i, j) && Cost(A, t, i, j) == c;
  }

  lemma {:induction false} IsCheapest(A: seq<int>, i: int, j: int, c: int, t: Tree)
    requires 1 <= i <= j < |A| && Covers(t, i, j) && Cost(A, t, i, j) == c
    requires forall u :: Covers(u, i, j) ==> c <= Cost(A, u, i, j)
    ensures Cheapest(A, i, j, c)
  {}

  lemma {:induction false} NoCheaper(A: seq<int>, i: int, j: int, c: int, t: Tree)
    requires 1 <= i < j < |A| && Covers(t, i, j) && NoBetter(A, i, t.k, j, c)
    ensures c <= Cost(A, t, i, j)
  {
    var d :| SplitCost(A, i, t.k, j, d) && c <= d;
    var a, b :| Cheapest(A, i, t.k, a) && CheapestBehind(A, t.k, j, b) && d == a + b + Product(A, i, t.k, j);
    assert a <= Cost(A, t.left, i, t.k) && b <= Cost(A, t.right, t.k + 1, j);
  }

  // ----- the tables -----

  /** Entry (i, j) of the table of costs. */
  ghost predicate CostDone(A: seq<int>, M: array2<int>, i: int, j: int)
    requires 1 <= i <= j < |A| && M.Length0 == M.Length1 == |A|
    reads M
  {
    Cheapest(A, i, j, M[i, j])
  }

  /** Entry (i, j) of the table of split positions. */
  ghost predicate SplitDone(A: seq<int>, M: array2<int>, S: array2<int>, i: int, j: int)
    requires 1 <= i < j < |A| == M.Length0 == M.Length1 == S.Length1 && S.Length0 == |A| - 1
    reads M, S
  {
    i <= S[i, j] < j && M[i, j] == M[i, S[i, j]] + M[S[i, j] + 1, j] + Product(A, i, S[i, j], j)
  }

  /** All chains shorter than `len`, and those of this length that start before `upto`. */
  ghost predicate Filled(A: seq<int>, M: array2<int>, S: array2<int>, len: int, upto: int)
    reads M, S
  {
    && |A| >= 2 && M.Length0 == M.Length1 == S.Length1 == |A| && S.Length0 == |A| - 1
    && (forall i, j :: 1 <= i <= j < |A| && Ready(i, j, len, upto) ==> CostDone(A, M, i, j))
    && (forall i, j :: 1 <= i < j < |A| && Ready(i, j, len, upto) ==> SplitDone(A, M, S, i, j))
  }

  predicate Ready(i: int, j: int, len: int, upto: int) {
    j - i < len || (j - i == len && i < upto)
  }

  lemma {:induction false} Lower(A: seq<int>, i: int, k: int, j: int, c: int, d: int)
    requires 1 <= i <= k < j < |A| && NoBetter(A, i, k, j, c) && d <= c
    ensures NoBetter(A, i, k, j, d)
  {
    var e :| SplitCost(A, i, k, j, e) && c <= e;
  }

  /** The cost of the split behind matrix m, from what the table has. */
  ghost function Tried(A: seq<int>, M: array2<int>, i: int, j: int, m: int): int
    requires 1 <= j <= m < j + i < |A| && M.Length0 == M.Length1 == |A|
    reads M
  {
    M[j, m] + M[m + 1, j + i] + Product(A, j, m, j + i)
  }

  /** The loop over k: the split of chain j..j + i with the least cost, the first of them. */
  method FindSplit(A: seq<int>, M: array2<int>, S: array2<int>, i: int, j: int) returns (min: int, position: int)
    requires Filled(A, M, S, i, j) && CostsFit(A) && 1 <= i && 1 <= j && j + i < |A|
    ensures j <= position < j + i && min == M[j, position] + M[position + 1, j + i] + Product(A, j, position, j + i)
    ensures Cheapest(A, j, j + i, min)
    ensures forall m :: j <= m < j + i ==>
              if m < position then Tried(A, M, i, j, m) > min else Tried(A, M, i, j, m) >= min
  {
    hide Cheapest, Product;
    min, position := INT_MAX, -1;
    var last := j + i;
    var k := 0;
    while k < i
      invariant 0 <= k <= i
      invariant k == 0 ==> min == INT_MAX
      invariant k > 0 ==> j <= position < j + k && SplitCost(A, j, position, last, min) && min < INT_MAX
      invariant k > 0 ==> min == M[j, position] + M[position + 1, j + i] + Product(A, j, position, j + i)
      invariant forall m :: j <= m < j + k ==> NoBetter(A, j, m, last, min)
      invariant forall m :: j <= m < j + k ==>
                  if m < position then Tried(A, M, i, j, m) > min else Tried(A, M, i, j, m) >= min
    {
      var tmp := SplitAt(A, M, S, i, j, k);
      if min > tmp {
        forall m | j <= m < j + k ensures NoBetter(A, j, m, last, tmp) {
          Lower(A, j, m, j + i, min, tmp);
        }
        min := tmp;
        position := j + k;
      } else {
        Lower(A, j, j + k, j + i, tmp, min);
      }
      k := k + 1;
    }
    CheapestSplit(A, j, j + i, position, min);
  }

  /** The cost computed for one split. */
  method SplitAt(A: seq<int>, M: array2<int>, S: array2<int>, i: int, j: int, k: int) returns (tmp: int)
    requires Filled(A, M, S, i, j) && CostsFit(A) && 1 <= i && 1 <= j && j + i < |A| && 0 <= k < i
    ensures tmp == M[j, j + k] + M[j + k + 1, j + i] + Product(A, j, j + k, j + i)
    ensures SplitCost(A, j, j + k, j + i, tmp) && NoBetter(A, j, j + k, j + i, tmp) && tmp < INT_MAX
  {
    SplitSum(A, M, S, i, j, k);
    tmp := M[j, j + k] + M[j + k + 1, j + i] + A[j - 1] * A[j + k] * A[j + i];
  }

  lemma {:induction false} SplitSum(A: seq<int>, M: array2<int>, S: array2<int>, i: int, j: int, k: int)
    requires Filled(A, M, S, i, j) && CostsFit(A) && 1 <= i && 1 <= j && j + i < |A| && 0 <= k < i
    ensures var tmp := M[j, j + k] + M[j + k + 1, j + i] + Product(A, j, j + k, j + i);
            SplitCost(A, j, j + k, j + i, tmp) && NoBetter(A, j, j + k, j + i, tmp) && tmp < INT_MAX
  {
    hide Cheapest;
    assert CostDone(A, M, j, j + k) && CostDone(A, M, j + k + 1, j + i);
    assert CheapestBehind(A, j + k, j + i, M[j + k + 1, j + i]);
  }

  /** Two neighbours can be multiplied in one way only. */
  method Pair(A: seq<int>, ghost M: array2<int>, ghost S: array2<int>, j: int) returns (min: int, position: int)
    requires Filled(A, M, S, 1, j) && CostsFit(A) && 1 <= j && j + 1 < |A|
    ensures position == j && min == M[j, j] + M[j + 1, j + 1] + Product(A, j, j, j + 1)
    ensures Cheapest(A, j, j + 1, min)
  {
    min, position := A[j - 1] * A[j] * A[j + 1], j;
    assert CostDone(A, M, j, j) && CostDone(A, M, j + 1, j + 1);
    CheapestOne(A, j);
    CheapestOne(A, j + 1);
    SplitSum(A, M, S, 1, j, 0);
    CheapestSplit(A, j, j + 1, j, min);
  }

  /** Writes the entry for chain j..j + i. */
  method FillEntry(A: seq<int>, M: array2<int>, S: array2<int>, i: int, j: int)
    requires Filled(A, M, S, i, j) && CostsFit(A) && 1 <= i && 1 <= j && j + i < |A| && M != S
    modifies M, S
    ensures Filled(A, M, S, i, j + 1)
  {
    hide Cheapest, Product, CostsFit;
    var min, position;
    if i == 1 {
      min, position := Pair(A, M, S, j);
    } else {
      min, position := FindSplit(A, M, S, i, j);
    }
    label Before:
    M[j, j + i] := min;
    S[j, j + i] := position;
    forall p, q | 1 <= p <= q < |A| && Ready(p, q, i, j + 1) ensures CostDone(A, M, p, q) {
      assert (p, q) != (j, j + i) ==> old@Before(CostDone(A, M, p, q));
    }
    forall p, q | 1 <= p < q < |A| && Ready(p, q, i, j + 1) ensures SplitDone(A, M, S, p, q) {
      assert (p, q) != (j, j + i) ==> old@Before(SplitDone(A, M, S, p, q));
    }
  }

  /** Fills both tables, chain length by chain length. */
  method Chain(A: seq<int>, M: array2<int>, S: array2<int>)
    requires |A| >= 3 && CostsFit(A) && M != S
    requires M.Length0 == M.Length1 == S.Length1 == |A| && S.Length0 == |A| - 1
    modifies M, S
    ensures Filled(A, M, S, |A| - 1, 1) && Cheapest(A, 1, |A| - 1, M[1, |A| - 1])
  {
    hide Cheapest, CostsFit;
    var N := |A| - 1;
    var j := 1;
    while j <= N
      invariant 1 <= j <= N + 1 && Filled(A, M, S, 0, j)
    {
      label Before:
      M[j, j] := 0;
      CheapestOne(A, j);
      forall p, q | 1 <= p <= q < |A| && Ready(p, q, 0, j + 1) ensures CostDone(A, M, p, q) {
        assert p != j ==> old@Before(CostDone(A, M, p, q));
      }
      j := j + 1;
    }
    var i := 1;
    while i <= N - 1
      invariant 1 <= i <= N && Filled(A, M, S, i, 1)
    {
      j := 1;
      while j <= N - i
        invariant 1 <= j <= N - i + 1 && Filled(A, M, S, i, j)
      {
        FillEntry(A, M, S, i, j);
        j := j + 1;
      }
      i := i + 1;
    }
    assert CostDone(A, M, 1, N);
  }

  // ----- the expression -----

  datatype Token = Num(i: int) | Open | Close

  /** A tree as an operand: a matrix, or a product in parentheses. */
  function Item(t: Tree): seq<Token> {
    match t
    case Leaf(i) => [Num(i)]
    case Node(_, l, r) => [Open] + (Item(l) + Item(r)) + [Close]
  }

  /** The tree that the table of split positions stands for. */
  ghost function TreeOf(A: seq<int>, M: array2<int>, S: array2<int>, i: int, j: int): Tree
    requires Filled(A, M, S, |A| - 1, 1) && 1 <= i <= j < |A|
    reads M, S
    decreases j - i
  {
    if i == j then Leaf(i)
    else
      assert SplitDone(A, M, S, i, j);
      Node(S[i, j], TreeOf(A, M, S, i, S[i, j]), TreeOf(A, M, S, S[i, j] + 1, j))
  }

  /** That tree is a cheapest one. */
  lemma {:induction false} TreeIsCheapest(A: seq<int>, M: array2<int>, S: array2<int>, i: int, j: int)
    requires Filled(A, M, S, |A| - 1, 1) && 1 <= i <= j < |A|
    ensures Covers(TreeOf(A, M, S, i, j), i, j) && Cost(A, TreeOf(A, M, S, i, j), i, j) == M[i, j]
            && Cheapest(A, i, j, M[i, j])
    decreases j - i
  {
    assert CostDone(A, M, i, j);
    if i < j {
      assert SplitDone(A, M, S, i, j);
      TreeIsCheapest(A, M, S, i, S[i, j]);
      TreeIsCheapest(A, M, S, S[i, j] + 1, j);
    } else {
      assert Covers(Leaf(i), i, j) && Cost(A, Leaf(i), i, j) == 0;
      CheapestOne(A, i);
    }
  }

  /** Prints the product of matrices i..j, without the outer parentheses. */
  method PrintParen(ghost A: seq<int>, ghost M: array2<int>, S: array2<int>, i: int, j: int) returns (out: seq<Token>)
    requires Filled(A, M, S, |A| - 1, 1) && 1 <= i < j < |A|
    ensures [Open] + out + [Close] == Item(TreeOf(A, M, S, i, j))
    decreases j - i
  {
    assert SplitDone(A, M, S, i, j);
    var bound := S[i, j];
    if i + 1 == j {
      out := [Num(i), Num(j)];
    } else if bound == i {
      var r := PrintParen(A, M, S, bound + 1, j);
      out := [Num(i)] + ([Open] + r + [Close]);
    } else if bound + 1 == j {
      var l := PrintParen(A, M, S, i, bound);
      out := [Open] + l + [Close] + [Num(j)];
    } else {
      var l := PrintParen(A, M, S, i, bound);
      var r := PrintParen(A, M, S, bound + 1, j);
      out := [Open] + l + [Close] + ([Open] + r + [Close]);
    }
    assert out == Item(TreeOf(A, M, S, i, bound)) + Item(TreeOf(A, M, S, bound + 1, j));
  }

  /** What main prints for A: the least cost, and the expression that attains it. */
  method Print(A: seq<int>) returns (cost: int, out: seq<Token>)
    requires |A| >= 3 && CostsFit(A)
    ensures Cheapest(A, 1, |A| - 1, cost)
    ensures exists t :: Covers(t, 1, |A| - 1) && Cost(A, t, 1, |A| - 1) == cost && out == Item(t)
  {
    hide Cheapest, CostsFit;
    var N := |A| - 1;
    var M := new int[N + 1, N + 1];
    var S := new int[N, N + 1];
    Chain(A, M, S);
    cost := M[1, N];
    var body := PrintParen(A, M, S, 1, N);
    out := [Open] + body + [Close];
    TreeIsCheapest(A, M, S, 1, N);
    ghost var t := TreeOf(A, M, S, 1, N);
    assert Covers(t, 1, N) && Cost(A, t, 1, N) == cost && out == Item(t);
  }

  // ----- reading the expression back -----

  datatype Parsed = Fail | Ok(t: Tree, rest: seq<Token>)

  function LastLeaf(t: Tree): int {
    match t
    case Leaf(i) => i
    case Node(_, _, r) => LastLeaf(r)
  }

  function ParseItem(ts: seq<Token>): (r: Parsed)
    ensures r.Ok? ==> |r.rest| < |ts|
    decreases |ts|
  {
    if ts == [] || ts[0] == Close then Fail
    else if ts[0].Num? then Ok(Leaf(ts[0].i), ts[1..])
    else
      var l := ParseItem(ts[1..]);
      if l.Fail? then Fail
      else
        var r := ParseItem(l.rest);
        if r.Fail? || r.rest == [] || r.rest[0] != Close then Fail
        else Ok(Node(LastLeaf(l.t), l.t, r.t), r.rest[1..])
  }

  lemma {:induction false} LastIs(t: Tree, i: int, j: int)
    requires Covers(t, i, j)
    ensures LastLeaf(t) == j
  {
    if t.Node? {
      LastIs(t.right, t.k + 1, j);
    }
  }

  /** The parentheses say all: the expression has one reading, the tree it was printed from. */
  lemma {:induction false} ReadsBack(t: Tree, i: int, j: int, rest: seq<Token>)
    requires Covers(t, i, j)
    ensures ParseItem(Item(t) + rest) == Ok(t, rest)
  {
    hide ParseItem, Item, Cost;
    match t
    case Leaf(k) => LeafBack(k, rest);
    case Node(k, l, r) =>
      ReadsBack(l, i, k, Item(r) + ([Close] + rest));
      ReadsBack(r, k + 1, j, [Close] + rest);
      LastIs(l, i, k);
      NodeBack(k, l, r, rest);
  }

  lemma {:induction false} LeafBack(k: int, rest: seq<Token>)
    ensures ParseItem(Item(Leaf(k)) + rest) == Ok(Leaf(k), rest)
  {
    assert (Item(Leaf(k)) + rest)[1..] == rest;
  }

  lemma {:induction false} NodeBack(k: int, l: Tree, r: Tree, rest: seq<Token>)
    requires LastLeaf(l) == k
    requires ParseItem(Item(l) + (Item(r) + ([Close] + rest))) == Ok(l, Item(r) + ([Close] + rest))
    requires ParseItem(Item(r) + ([Close] + rest)) == Ok(r, [Close] + rest)
    ensures ParseItem(Item(Node(k, l, r)) + rest) == Ok(Node(k, l, r), rest)
  {
    hide ParseItem;
    NodeTokens(k, l, r, rest);
    hide Item;
    assert ([Close] + rest)[1..] == rest;
    ParseOpen(Item(l) + (Item(r) + ([Close] + rest)), k, l, r, Item(r) + ([Close] + rest), [Close] + rest);
  }

  lemma {:induction false} NodeTokens(k: int, l: Tree, r: Tree, rest: seq<Token>)
    ensures Item(Node(k, l, r)) + rest == [Open] + (Item(l) + (Item(r) + ([Close] + rest)))
  {
    var x, y, z := Item(l), Item(r), [Close] + rest;
    assert Item(Node(k, l, r)) == [Open] + (x + y) + [Close];
    hide Item;
    assert x + (y + z) == x + y + z;
    assert [Open] + (x + y) + [Close] + rest == [Open] + (x + y + z);
  }

  /** What the parser does behind an opening parenthesis. */
  lemma {:induction false} ParseOpen(inner: seq<Token>, k: int, l: Tree, r: Tree, mid: seq<Token>, end: seq<Token>)
    requires LastLeaf(l) == k && ParseItem(inner) == Ok(l, mid) && ParseItem(mid) == Ok(r, end)
    requires end != [] && end[0] == Close
    ensures ParseItem([Open] + inner) == Ok(Node(k, l, r), end[1..])
  {
    assert ([Open] + inner)[1..] == inner;
  }
}
