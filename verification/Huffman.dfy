/**
 Why merging the two lightest trees gives code lengths that fit (Kraft's sum is exactly one) and
 that no prefix code beats, and why few bits suffice when the weights are small.

 A forest is a sequence of weights, indexed by entry; weight 0 means that the entry is no root.
 Kraft sums are scaled by 2^D, where D bounds the lengths.
 */
module Huffman {
  import opened Arithmetic

  function Pow2(n: nat): (r: nat)
    ensures r > 0
  {
    if n == 0 then 1 else 2 * Pow2(n - 1)
  }

  function Sum(s: seq<nat>): nat {
    if s == [] then 0 else Sum(s[..|s| - 1]) + s[|s| - 1]
  }

  lemma {:induction false} SumUpdate(s: seq<nat>, i: nat, v: nat)
    requires i < |s|
    ensures Sum(s[i := v]) + s[i] == Sum(s) + v
    decreases |s|
  {
    if i == |s| - 1 {
      assert s[i := v][..i] == s[..i];
    } else {
      SumUpdate(s[..|s| - 1], i, v);
      assert s[i := v][..|s| - 1] == s[..|s| - 1][i := v];
    }
  }

  lemma {:induction false} SumZero(s: seq<nat>)
    requires forall i :: 0 <= i < |s| ==> s[i] == 0
    ensures Sum(s) == 0
    decreases |s|
  {
    if s != [] { SumZero(s[..|s| - 1]); }
  }

  lemma SumAtLeast(s: seq<nat>, i: nat)
    requires i < |s|
    ensures s[i] <= Sum(s)
  {
    SumUpdate(s, i, 0);
  }

  lemma SumAtLeastTwo(s: seq<nat>, i: nat, j: nat)
    requires i < |s| && j < |s| && i != j
    ensures s[i] + s[j] <= Sum(s)
  {
    SumUpdate(s, i, 0);
    SumAtLeast(s[i := 0], j);
  }

  ghost predicate Multiple(x: nat, m: nat) {
    exists q: nat :: x == m * q
  }

  lemma AddMultiples(x: nat, y: nat, m: nat)
    requires Multiple(x, m) && Multiple(y, m)
    ensures Multiple(x + y, m)
  {
    var p: nat :| x == m * p;
    var q: nat :| y == m * q;
    assert x + y == m * (p + q);
  }

  lemma {:induction false} SumMultiple(s: seq<nat>, m: nat)
    requires forall i :: 0 <= i < |s| ==> Multiple(s[i], m)
    ensures Multiple(Sum(s), m)
    decreases |s|
  {
    if s == [] {
      assert 0 == m * 0;
    } else {
      SumMultiple(s[..|s| - 1], m);
      AddMultiples(Sum(s[..|s| - 1]), s[|s| - 1], m);
    }
  }

  /** Between multiples there is room for one more unit. */
  lemma NextMultiple(x: nat, limit: nat, m: nat)
    requires Multiple(x, m) && Multiple(limit, m) && x < limit
    ensures x + m <= limit
  {
    var p: nat :| x == m * p;
    var q: nat :| limit == m * q;
    if q <= p {
      MulGrows(m, q, p);
      assert false;
    }
    MulGrows(m, p + 1, q);
    assert m * (p + 1) == m * p + m;
  }

  lemma {:induction false} PowMultiple(a: nat, b: nat)
    requires a <= b
    ensures Multiple(Pow2(b), Pow2(a))
    decreases b
  {
    if a == b {
      assert Pow2(b) == Pow2(a) * 1;
    } else {
      PowMultiple(a, b - 1);
      AddMultiples(Pow2(b - 1), Pow2(b - 1), Pow2(a));
    }
  }

  // ----- lengths for the roots of a forest

  ghost predicate Bounded(w: seq<nat>, len: seq<nat>, d: nat) {
    |len| == |w| && forall i :: 0 <= i < |w| && w[i] > 0 ==> len[i] <= d
  }

  function Term(weight: nat, len: nat, d: nat): nat {
    if weight > 0 && len <= d then Pow2(d - len) else 0
  }

  function Terms(w: seq<nat>, len: seq<nat>, d: nat): (r: seq<nat>)
    requires |len| == |w|
    ensures |r| == |w|
  {
    seq(|w|, i requires 0 <= i < |w| => Term(w[i], len[i], d))
  }

  /** Kraft's sum over the roots, times 2^d. */
  function Kraft(w: seq<nat>, len: seq<nat>, d: nat): nat
    requires |len| == |w|
  {
    Sum(Terms(w, len, d))
  }

  function Products(w: seq<nat>, len: seq<nat>): (r: seq<nat>)
    requires |len| == |w|
    ensures |r| == |w|
  {
    seq(|w|, i requires 0 <= i < |w| => w[i] * len[i])
  }

  /** The weighted length. */
  function Cost(w: seq<nat>, len: seq<nat>): nat
    requires |len| == |w|
  {
    Sum(Products(w, len))
  }

  /** Lengths that some prefix code has: Kraft's inequality. */
  ghost predicate IsCode(w: seq<nat>, len: seq<nat>, d: nat) {
    Bounded(w, len, d) && Kraft(w, len, d) <= Pow2(d)
  }

  lemma KraftSet(w: seq<nat>, len: seq<nat>, d: nat, i: nat, n: nat)
    requires |len| == |w| && i < |w|
    ensures Kraft(w, len[i := n], d) + Term(w[i], len[i], d) == Kraft(w, len, d) + Term(w[i], n, d)
  {
    var t: seq<nat> := Terms(w, len, d);
    SumUpdate(t, i, Term(w[i], n, d));
    assert Terms(w, len[i := n], d) == t[i := Term(w[i], n, d)];
  }

  lemma CostSet(w: seq<nat>, len: seq<nat>, i: nat, n: nat)
    requires |len| == |w| && i < |w|
    ensures Cost(w, len[i := n]) + w[i] * len[i] == Cost(w, len) + w[i] * n
  {
    var p: seq<nat> := Products(w, len);
    SumUpdate(p, i, w[i] * n);
    assert Products(w, len[i := n]) == p[i := w[i] * n];
  }

  lemma KraftReweigh(w: seq<nat>, len: seq<nat>, d: nat, i: nat, x: nat)
    requires |len| == |w| && i < |w|
    ensures Kraft(w[i := x], len, d) + Term(w[i], len[i], d) == Kraft(w, len, d) + Term(x, len[i], d)
  {
    var t: seq<nat> := Terms(w, len, d);
    SumUpdate(t, i, Term(x, len[i], d));
    assert Terms(w[i := x], len, d) == t[i := Term(x, len[i], d)];
  }

  lemma CostReweigh(w: seq<nat>, len: seq<nat>, i: nat, x: nat)
    requires |len| == |w| && i < |w|
    ensures Cost(w[i := x], len) + w[i] * len[i] == Cost(w, len) + x * len[i]
  {
    var p: seq<nat> := Products(w, len);
    SumUpdate(p, i, x * len[i]);
    assert Products(w[i := x], len) == p[i := x * len[i]];
  }

  lemma {:induction false} SumConcat(s: seq<nat>, t: seq<nat>)
    ensures Sum(s + t) == Sum(s) + Sum(t)
    decreases |t|
  {
    if t == [] {
      assert s + t == s;
    } else {
      SumConcat(s, t[..|t| - 1]);
      assert (s + t)[..|s + t| - 1] == s + t[..|t| - 1];
    }
  }

  lemma {:induction false} SumScaled(s: seq<nat>, t: seq<nat>, m: nat)
    requires |s| == |t| && forall i :: 0 <= i < |s| ==> t[i] == m * s[i]
    ensures Sum(t) == m * Sum(s)
    decreases |s|
  {
    if s != [] {
      SumScaled(s[..|s| - 1], t[..|t| - 1], m);
    }
  }

  lemma {:induction false} PowAdds(a: nat, b: nat)
    ensures Pow2(a + b) == Pow2(a) * Pow2(b)
    decreases a
  {
    if a > 0 { PowAdds(a - 1, b); }
  }

  /** Kraft's sum may be taken with any common denominator. */
  lemma KraftScaled(w: seq<nat>, len: seq<nat>, d: nat, e: nat)
    requires Bounded(w, len, d) && d <= e
    ensures Kraft(w, len, e) == Pow2(e - d) * Kraft(w, len, d)
  {
    forall i | 0 <= i < |w| ensures Terms(w, len, e)[i] == Pow2(e - d) * Terms(w, len, d)[i] {
      if w[i] > 0 { PowAdds(e - d, d - len[i]); }
    }
    SumScaled(Terms(w, len, d), Terms(w, len, e), Pow2(e - d));
  }

  /** `w` is the weights `v` with entry 0 before and entries without weight behind them. */
  ghost predicate Embeds(w: seq<nat>, v: seq<nat>) {
    && |v| < |w| && w[0] == 0
    && (forall i :: 0 <= i < |v| ==> w[i + 1] == v[i])
    && (forall i :: |v| < i < |w| ==> w[i] == 0)
  }

  lemma EmbeddedSum(w: seq<nat>, v: seq<nat>)
    requires Embeds(w, v)
    ensures Sum(w) == Sum(v)
  {
    var rest: seq<nat> := w[|v| + 1..];
    assert w == [0] + v + rest;
    SumConcat([0] + v, rest);
    SumConcat([0], v);
    SumZero(rest);
  }

  lemma Embedded(w: seq<nat>, v: seq<nat>, len: seq<nat>, short: seq<nat>, d: nat)
    requires Embeds(w, v) && |len| == |w| && |short| == |v|
    requires forall i :: 0 <= i < |v| && v[i] > 0 ==> len[i + 1] == short[i]
    ensures Kraft(w, len, d) == Kraft(v, short, d) && Cost(w, len) == Cost(v, short)
  {
    assert Embeds(Terms(w, len, d), Terms(v, short, d));
    EmbeddedSum(Terms(w, len, d), Terms(v, short, d));
    assert Embeds(Products(w, len), Products(v, short));
    EmbeddedSum(Products(w, len), Products(v, short));
  }

  // ----- one merge

  ghost predicate Lightest(w: seq<nat>, a: nat, b: nat) {
    && a < |w| && b < |w| && a != b && w[a] > 0 && w[b] > 0
    && forall k :: 0 <= k < |w| && w[k] > 0 && k != a && k != b ==> w[a] <= w[k] && w[b] <= w[k]
  }

  ghost predicate Merge(w: seq<nat>, v: seq<nat>, a: nat, b: nat, c: nat) {
    && Lightest(w, a, b) && c < |w| && w[c] == 0
    && v == w[a := 0][b := 0][c := w[a] + w[b]]
  }

  /** A merge replaces the terms of two roots by that of their parent. */
  lemma MergeSums(w: seq<nat>, v: seq<nat>, a: nat, b: nat, c: nat, len: seq<nat>, d: nat)
    requires a < |w| && b < |w| && c < |w| && |len| == |w| == |v| && Merge(w, v, a, b, c)
    ensures Kraft(v, len, d) + Term(w[a], len[a], d) + Term(w[b], len[b], d)
            == Kraft(w, len, d) + Term(w[a] + w[b], len[c], d)
    ensures Cost(v, len) + w[a] * len[a] + w[b] * len[b] == Cost(w, len) + (w[a] + w[b]) * len[c]
  {
    MergeSteps(w, v, a, b, c);
    assert Term(0, len[a], d) == Term(0, len[b], d) == Term(0, len[c], d) == 0;
    hide *;
    KraftReweigh(w, len, d, a, 0);
    KraftReweigh(w[a := 0], len, d, b, 0);
    KraftReweigh(w[a := 0][b := 0], len, d, c, w[a] + w[b]);
    CostReweigh(w, len, a, 0);
    CostReweigh(w[a := 0], len, b, 0);
    CostReweigh(w[a := 0][b := 0], len, c, w[a] + w[b]);
  }

  /** The weights while they are changed one after the other. */
  lemma MergeSteps(w: seq<nat>, v: seq<nat>, a: nat, b: nat, c: nat)
    requires Merge(w, v, a, b, c)
    ensures a < |w| && b < |w| && c < |w| == |v| && v == w[a := 0][b := 0][c := w[a] + w[b]]
    ensures w[a := 0][b] == w[b] && w[a := 0][b := 0][c] == 0
  {
  }

  /** Undoing a merge: the two trees hang one below where their parent was. */
  lemma Split(w: seq<nat>, v: seq<nat>, a: nat, b: nat, c: nat, len: seq<nat>, d: nat)
    requires Merge(w, v, a, b, c) && |len| == |w| && len[a] == len[b] == len[c] + 1 <= d
    ensures Kraft(w, len, d) == Kraft(v, len, d)
    ensures Cost(w, len) == Cost(v, len) + w[a] + w[b]
  {
    hide Kraft, Cost;
    MergeSums(w, v, a, b, c, len, d);
    Distribute(w[a], w[b], len[c]);
  }

  lemma Distribute(x: nat, y: nat, n: nat)
    ensures x * (n + 1) + y * (n + 1) == (x + y) * n + x + y
  {
  }

  // ----- no code is cheaper: lengths for a forest become lengths for the merged forest

  ghost predicate Longest(w: seq<nat>, len: seq<nat>, i: nat) {
    && |len| == |w| && i < |w| && w[i] > 0
    && forall k :: 0 <= k < |w| && w[k] > 0 ==> len[k] <= len[i]
  }

  lemma LongestExists(w: seq<nat>, len: seq<nat>) returns (i: nat)
    requires |len| == |w| && exists k :: 0 <= k < |w| && w[k] > 0
    ensures Longest(w, len, i)
  {
    i :| i < |w| && w[i] > 0;
    for n := 0 to |w|
      invariant i < |w| && w[i] > 0 && forall k :: 0 <= k < n && w[k] > 0 ==> len[k] <= len[i]
    {
      if w[n] > 0 && len[n] > len[i] { i := n; }
    }
  }

  ghost predicate OnlyLongest(w: seq<nat>, len: seq<nat>, x: nat) {
    && Longest(w, len, x) && len[x] > 0
    && forall k :: 0 <= k < |w| && w[k] > 0 && k != x ==> len[k] < len[x]
  }

  /** Apart from the one longest code, everything in the sum is a multiple of twice its term. */
  lemma RoomForLongest(w: seq<nat>, len: seq<nat>, d: nat, x: nat)
    requires IsCode(w, len, d) && OnlyLongest(w, len, x)
    ensures Kraft(w, len, d) + Pow2(d - len[x]) <= Pow2(d)
  {
    var t: seq<nat> := Terms(w, len, d);
    var m := Pow2(d - len[x] + 1);
    SumUpdate(t, x, 0);
    var rest: seq<nat> := t[x := 0];
    forall i: nat | i < |rest| ensures Multiple(rest[i], m) {
      if i != x && w[i] > 0 {
        PowMultiple(d - len[x] + 1, d - len[i]);
      } else {
        assert 0 == m * 0;
      }
    }
    SumMultiple(rest, m);
    PowMultiple(d - len[x] + 1, d);
    NextMultiple(Sum(rest), Pow2(d), m);
  }

  /** If only one root has the greatest length, that length can be reduced. */
  lemma Shorten(w: seq<nat>, len: seq<nat>, d: nat, x: nat)
    requires IsCode(w, len, d) && OnlyLongest(w, len, x)
    ensures IsCode(w, len[x := len[x] - 1], d) && Cost(w, len[x := len[x] - 1]) <= Cost(w, len)
  {
    hide Kraft, Cost;
    RoomForLongest(w, len, d, x);
    KraftSet(w, len, d, x, len[x] - 1);
    CostSet(w, len, x, len[x] - 1);
    MulGrows(w[x], len[x] - 1, len[x]);
  }

  /** Exchanging the lengths of two roots. */
  lemma Exchange(w: seq<nat>, len: seq<nat>, d: nat, a: nat, x: nat)
    requires IsCode(w, len, d) && a < |w| && x < |w| && 0 < w[a] <= w[x] && len[a] <= len[x]
    ensures var r := len[a := len[x]][x := len[a]];
            IsCode(w, r, d) && Cost(w, r) <= Cost(w, len)
  {
    hide Kraft, Cost;
    if a == x {
      assert len[a := len[x]][x := len[a]] == len;
    } else {
      KraftSet(w, len, d, a, len[x]);
      KraftSet(w, len[a := len[x]], d, x, len[a]);
      CostSet(w, len, a, len[x]);
      CostSet(w, len[a := len[x]], x, len[a]);
      Rearrange(w[a], w[x], len[a], len[x]);
    }
  }

  lemma Rearrange(wa: nat, wx: nat, la: nat, lx: nat)
    requires wa <= wx && la <= lx
    ensures wa * lx + wx * la <= wa * la + wx * lx
  {
    assert (wx - wa) * (lx - la) == wx * lx - wx * la - wa * lx + wa * la;
  }

  /** The two lightest roots can be given the greatest length, and the same one. */
  lemma Deepen(w: seq<nat>, len: seq<nat>, d: nat, a: nat, b: nat) returns (r: seq<nat>)
    requires IsCode(w, len, d) && Lightest(w, a, b)
    ensures IsCode(w, r, d) && Cost(w, r) <= Cost(w, len) && r[a] == r[b] > 0
    decreases Sum(len)
  {
    hide Cost;
    var x := LongestExists(w, len);
    if len[x] == 0 {
      TwoRootsNeedBits(w, len, d, a, b);
      assert false;
    } else if OnlyLongest(w, len, x) {
      Shorten(w, len, d, x);
      SumUpdate(len, x, len[x] - 1);
      r := Deepen(w, len[x := len[x] - 1], d, a, b);
    } else {
      var y :| 0 <= y < |w| && w[y] > 0 && y != x && len[y] == len[x];
      r := DeepenBoth(w, len, d, a, b, x, y);
    }
  }

  lemma TwoRootsNeedBits(w: seq<nat>, len: seq<nat>, d: nat, a: nat, b: nat)
    requires IsCode(w, len, d) && Lightest(w, a, b)
    ensures len[a] > 0 || len[b] > 0
  {
    SumAtLeastTwo(Terms(w, len, d), a, b);
  }

  /** Two roots share the greatest length: exchange `a` with one and `b` with the other. */
  lemma DeepenBoth(w: seq<nat>, len: seq<nat>, d: nat, a: nat, b: nat, x: nat, y: nat) returns (r: seq<nat>)
    requires IsCode(w, len, d) && Lightest(w, a, b)
    requires Longest(w, len, x) && Longest(w, len, y) && x != y && len[x] > 0
    ensures IsCode(w, r, d) && Cost(w, r) <= Cost(w, len) && r[a] == r[b] > 0
  {
    hide Kraft, Cost;
    var z := if len[a] == len[x] then a else if x == b then y else x;
    Exchange(w, len, d, a, z);
    var mid := len[a := len[z]][z := len[a]];
    var u := if len[b] == len[x] then b else if z == x || a == x then y else x;
    Exchange(w, mid, d, b, u);
    r := mid[b := mid[u]][u := mid[b]];
  }

  /** A code for the forest yields one for the merged forest, cheaper by the merged weight. */
  lemma MergeCode(w: seq<nat>, v: seq<nat>, a: nat, b: nat, c: nat, len: seq<nat>, d: nat) returns (r: seq<nat>)
    requires Merge(w, v, a, b, c) && IsCode(w, len, d)
    ensures IsCode(v, r, d) && Cost(v, r) + w[a] + w[b] <= Cost(w, len)
  {
    hide Kraft, Cost;
    var deep := Deepen(w, len, d, a, b);
    r := deep[c := deep[a] - 1];
    KraftSet(w, deep, d, c, deep[a] - 1);
    CostSet(w, deep, c, deep[a] - 1);
    MergeSums(w, v, a, b, c, r, d);
    Distribute(w[a], w[b], r[c]);
  }

  // ----- a whole run of merges

  datatype Move = Move(w: seq<nat>, a: nat, b: nat, c: nat)

  /** From forest `w0` the moves lead to forest `w`. */
  ghost predicate Path(w0: seq<nat>, moves: seq<Move>, w: seq<nat>) {
    if moves == [] then w == w0
    else
      var m := moves[|moves| - 1];
      Path(w0, moves[..|moves| - 1], m.w) && Merge(m.w, w, m.a, m.b, m.c)
  }

  /** The weight of all trees that were built. */
  ghost function Built(w0: seq<nat>, moves: seq<Move>, w: seq<nat>): nat
    requires Path(w0, moves, w)
  {
    if moves == [] then 0
    else
      var m := moves[|moves| - 1];
      Built(w0, moves[..|moves| - 1], m.w) + m.w[m.a] + m.w[m.b]
  }

  ghost predicate HangsBelow(m: Move, len: seq<nat>) {
    && m.a < |len| && m.b < |len| && m.c < |len|
    && len[m.a] == len[m.b] == len[m.c] + 1
  }

  lemma {:induction false} PathCode(w0: seq<nat>, moves: seq<Move>, w: seq<nat>, len: seq<nat>, d: nat)
    returns (r: seq<nat>)
    requires Path(w0, moves, w) && IsCode(w0, len, d)
    ensures IsCode(w, r, d) && Cost(w, r) + Built(w0, moves, w) <= Cost(w0, len)
    decreases |moves|
  {
    if moves == [] {
      r := len;
    } else {
      var m := moves[|moves| - 1];
      var q := PathCode(w0, moves[..|moves| - 1], m.w, len, d);
      r := MergeCode(m.w, w, m.a, m.b, m.c, q, d);
    }
  }

  lemma {:induction false} PathLengths(w0: seq<nat>, moves: seq<Move>, w: seq<nat>, len: seq<nat>, d: nat)
    requires Path(w0, moves, w) && |len| == |w|
    requires forall m :: m in moves ==> HangsBelow(m, len)
    requires forall i :: 0 <= i < |len| ==> len[i] <= d
    ensures |w0| == |w| && Kraft(w0, len, d) == Kraft(w, len, d)
    ensures Cost(w0, len) == Cost(w, len) + Built(w0, moves, w)
    decreases |moves|
  {
    if moves != [] {
      var m := moves[|moves| - 1];
      assert HangsBelow(m, len);
      PathLengths(w0, moves[..|moves| - 1], m.w, len, d);
      Split(m.w, w, m.a, m.b, m.c, len, d);
    }
  }

  ghost predicate SingleRoot(w: seq<nat>, r: nat) {
    r < |w| && w[r] > 0 && forall k :: 0 <= k < |w| && k != r ==> w[k] == 0
  }

  lemma SingleRootSums(w: seq<nat>, r: nat, len: seq<nat>, d: nat)
    requires SingleRoot(w, r) && |len| == |w| && len[r] == 0
    ensures Kraft(w, len, d) == Pow2(d) && Cost(w, len) == 0
  {
    var t: seq<nat> := Terms(w, len, d);
    SumUpdate(t, r, 0);
    SumZero(t[r := 0]);
    SumZero(Products(w, len));
  }

  /** The lengths that the finished tree gives: their Kraft sum is exactly one, and no prefix code
      whatever, long or short, has a smaller weighted length. */
  lemma TreeLengths(w0: seq<nat>, moves: seq<Move>, w: seq<nat>, r: nat, len: seq<nat>, d: nat)
    requires Path(w0, moves, w) && SingleRoot(w, r) && |len| == |w| && len[r] == 0
    requires forall m :: m in moves ==> HangsBelow(m, len)
    requires forall i :: 0 <= i < |len| ==> len[i] <= d
    ensures |w0| == |w| && Kraft(w0, len, d) == Pow2(d)
    ensures forall other, e: nat :: IsCode(w0, other, e) ==> Cost(w0, len) <= Cost(w0, other)
  {
    hide Kraft, Cost;
    PathLengths(w0, moves, w, len, d);
    SingleRootSums(w, r, len, d);
    forall other, e: nat | IsCode(w0, other, e) ensures Cost(w0, len) <= Cost(w0, other) {
      var _ := PathCode(w0, moves, w, other, e);
    }
  }

  // ----- deep trees are heavy

  function Fib(n: nat): nat {
    if n < 2 then n else Fib(n - 1) + Fib(n - 2)
  }

  lemma {:induction false} FibGrows(m: nat, n: nat)
    requires m <= n
    ensures Fib(m) <= Fib(n)
    decreases n
  {
    if m < n && n >= 2 { FibGrows(m, n - 1); }
  }

  /** `floor` is the weight of the heaviest tree merged so far. */
  ghost predicate Heavy(w: seq<nat>, depth: seq<nat>, floor: nat) {
    && |depth| == |w|
    && forall r :: 0 <= r < |w| && w[r] > 0 ==>
         w[r] >= floor && w[r] >= Fib(depth[r] + 2) && (depth[r] > 0 ==> floor >= Fib(depth[r] + 1))
  }

  /** The joined tree is as heavy as its depth demands. */
  lemma JoinHeavy(x: nat, y: nat, dx: nat, dy: nat, floor: nat)
    requires x >= floor && y >= floor && x >= Fib(dx + 2) && y >= Fib(dy + 2)
    requires (dx > 0 ==> floor >= Fib(dx + 1)) && (dy > 0 ==> floor >= Fib(dy + 1))
    ensures var d, top := if dx > dy then dx else dy, if x > y then x else y;
            x + y >= Fib(d + 3) && top >= Fib(d + 2)
  {
    FibGrows(2, dx + 2);
    FibGrows(2, dy + 2);
    assert Fib(1) == Fib(2) == 1;
    assert Fib(dx + 3) == Fib(dx + 2) + Fib(dx + 1) && Fib(dy + 3) == Fib(dy + 2) + Fib(dy + 1);
  }

  lemma MergeHeavy(w: seq<nat>, v: seq<nat>, a: nat, b: nat, c: nat, depth: seq<nat>, floor: nat) returns (top: nat)
    requires Merge(w, v, a, b, c) && Heavy(w, depth, floor)
    ensures Heavy(v, depth[c := 1 + if depth[a] > depth[b] then depth[a] else depth[b]], top)
  {
    hide Fib;
    top := if w[a] > w[b] then w[a] else w[b];
    JoinHeavy(w[a], w[b], depth[a], depth[b], floor);
  }

  lemma {:induction false} PathSum(w0: seq<nat>, moves: seq<Move>, w: seq<nat>)
    requires Path(w0, moves, w)
    ensures Sum(w) == Sum(w0)
    decreases |moves|
  {
    if moves != [] {
      var m := moves[|moves| - 1];
      PathSum(w0, moves[..|moves| - 1], m.w);
      MergeTotal(m.w, w, m.a, m.b, m.c);
    }
  }

  lemma MergeTotal(w: seq<nat>, v: seq<nat>, a: nat, b: nat, c: nat)
    requires Merge(w, v, a, b, c)
    ensures Sum(v) == Sum(w)
  {
    hide Sum;
    SumUpdate(w, a, 0);
    SumUpdate(w[a := 0], b, 0);
    SumUpdate(w[a := 0][b := 0], c, w[a] + w[b]);
  }
}
