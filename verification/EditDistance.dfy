/** The edit distance of src/base/system.cpp, computed with two rolling rows. */
module EditDistance {

  type Text = seq<int>

  // ----- What the distance means: the least number of single edits -------------------------------

  /** `t` is `s` with one element inserted at `i`. */
  predicate Inserted(s: Text, t: Text, i: nat) {
    |t| == |s| + 1 && i <= |s| && t == s[..i] + [t[i]] + s[i..]
  }

  /** `t` is `s` with the element at `i` replaced. */
  predicate Replaced(s: Text, t: Text, i: nat) {
    |t| == |s| && i < |s| && t == s[i := t[i]]
  }

  ghost predicate OneEdit(s: Text, t: Text) {
    exists i: nat :: Inserted(s, t, i) || Inserted(t, s, i) || Replaced(s, t, i)
  }

  /** A way from the first to the last text by single edits. */
  ghost predicate Chain(chain: seq<Text>) {
    && |chain| > 0
    && forall k | 0 <= k < |chain| - 1 :: OneEdit(chain[k], chain[k + 1])
  }

  // ----- The recurrence -------------------------------------------------------------------------

  function Min3(a: int, b: int, c: int): (m: int)
    ensures m <= a && m <= b && m <= c && (m == a || m == b || m == c)
  {
    var m := if b < a then b else a;
    if c < m then c else m
  }

  function Init(s: Text): Text
    requires |s| > 0
  {
    s[..|s| - 1]
  }

  function Last(s: Text): int
    requires |s| > 0
  {
    s[|s| - 1]
  }

  function Cost(x: int, y: int): nat {
    if x == y then 0 else 1
  }

  function Dist(a: Text, b: Text): nat
    decreases |a| + |b|
  {
    if a == [] then |b|
    else if b == [] then |a|
    else Min3(Dist(Init(a), b) + 1, Dist(a, Init(b)) + 1, Dist(Init(a), Init(b)) + Cost(Last(a), Last(b)))
  }

  // ----- The recurrence is a metric --------------------------------------------------------------

  lemma {:induction false} Symmetric(a: Text, b: Text)
    ensures Dist(a, b) == Dist(b, a)
    decreases |a| + |b|
  {
    if a != [] && b != [] {
      Symmetric(Init(a), b);
      Symmetric(a, Init(b));
      Symmetric(Init(a), Init(b));
    }
  }

  lemma {:induction false} ZeroIffEqual(a: Text, b: Text)
    ensures Dist(a, b) == 0 <==> a == b
    decreases |a| + |b|
  {
    if a != [] && b != [] {
      ZeroIffEqual(Init(a), Init(b));
      assert a == Init(a) + [Last(a)] && b == Init(b) + [Last(b)];
    }
  }

  lemma {:induction false} LengthBounds(a: Text, b: Text)
    ensures |a| - |b| <= Dist(a, b) && |b| - |a| <= Dist(a, b) && Dist(a, b) <= |a| + |b|
    decreases |a| + |b|
  {
    if a != [] && b != [] {
      LengthBounds(Init(a), b);
      LengthBounds(a, Init(b));
      LengthBounds(Init(a), Init(b));
    }
  }

  lemma LastSteps(a: Text, b: Text)
    requires a != [] && b != []
    ensures Dist(a, b) == Min3(Dist(Init(a), b) + 1, Dist(a, Init(b)) + 1, Dist(Init(a), Init(b)) + Cost(Last(a), Last(b)))
  {
    hide Min3;
    hide Init;
    hide Last;
    hide Cost;
  }

  lemma {:induction false} Triangle(a: Text, b: Text, c: Text)
    ensures Dist(a, c) <= Dist(a, b) + Dist(b, c)
    decreases |a| + |b| + |c|
  {
    hide Dist;
    LengthBounds(a, b);
    LengthBounds(b, c);
    LengthBounds(a, c);
    if a != [] && b != [] && c != [] {
      LastSteps(a, b);
      LastSteps(b, c);
      LastSteps(a, c);
      if Dist(b, c) == Dist(b, Init(c)) + 1 {
        Triangle(a, b, Init(c));
      } else if Dist(a, b) == Dist(Init(a), b) + 1 {
        Triangle(Init(a), b, c);
      } else if Dist(a, b) == Dist(a, Init(b)) + 1 {
        Triangle(a, Init(b), c);
        Triangle(a, Init(b), Init(c));
      } else {
        Triangle(Init(a), Init(b), c);
        Triangle(Init(a), Init(b), Init(c));
      }
    } else {
      EmptyDist(a, b);
      EmptyDist(b, c);
      EmptyDist(a, c);
    }
  }

  lemma EmptyDist(a: Text, b: Text)
    ensures a == [] ==> Dist(a, b) == |b|
    ensures b == [] ==> Dist(a, b) == |a|
  {
  }

  // ----- No chain is shorter ---------------------------------------------------------------------

  lemma {:induction false} InsertedDist(s: Text, t: Text, i: nat)
    requires Inserted(s, t, i)
    ensures Dist(s, t) <= 1
    decreases |s|
  {
    if i == |s| {
      assert Init(t) == s;
      ZeroIffEqual(s, Init(t));
    } else {
      assert Last(t) == Last(s);
      assert Inserted(Init(s), Init(t), i);
      InsertedDist(Init(s), Init(t), i);
    }
  }

  lemma {:induction false} ReplacedDist(s: Text, t: Text, i: nat)
    requires Replaced(s, t, i)
    ensures Dist(s, t) <= 1
    decreases |s|
  {
    if i == |s| - 1 {
      assert Init(t) == Init(s);
      ZeroIffEqual(Init(s), Init(t));
    } else {
      assert Last(t) == Last(s);
      assert Replaced(Init(s), Init(t), i);
      ReplacedDist(Init(s), Init(t), i);
    }
  }

  lemma OneEditDist(s: Text, t: Text)
    requires OneEdit(s, t)
    ensures Dist(s, t) <= 1
  {
    var i: nat :| Inserted(s, t, i) || Inserted(t, s, i) || Replaced(s, t, i);
    if Inserted(s, t, i) {
      InsertedDist(s, t, i);
    } else if Inserted(t, s, i) {
      InsertedDist(t, s, i);
      Symmetric(s, t);
    } else {
      ReplacedDist(s, t, i);
    }
  }

  lemma {:induction false} NoChainIsShorter(chain: seq<Text>)
    requires Chain(chain)
    ensures Dist(chain[0], chain[|chain| - 1]) <= |chain| - 1
  {
    var n := |chain|;
    if n == 1 {
      ZeroIffEqual(chain[0], chain[0]);
    } else {
      NoChainIsShorter(chain[..n - 1]);
      assert OneEdit(chain[n - 2], chain[n - 2 + 1]);
      OneEditDist(chain[n - 2], chain[n - 1]);
      Triangle(chain[0], chain[n - 2], chain[n - 1]);
    }
  }

  // ----- Some chain is as short ------------------------------------------------------------------

  /** Every text of a chain with one more element at its end. */
  function Suffixed(chain: seq<Text>, x: int): (r: seq<Text>)
    ensures |r| == |chain| && forall k | 0 <= k < |chain| :: r[k] == chain[k] + [x]
  {
    seq(|chain|, k requires 0 <= k < |chain| => chain[k] + [x])
  }

  lemma OneEditSuffixed(s: Text, t: Text, x: int)
    requires OneEdit(s, t)
    ensures OneEdit(s + [x], t + [x])
  {
    var i: nat :| Inserted(s, t, i) || Inserted(t, s, i) || Replaced(s, t, i);
    if Inserted(s, t, i) {
      InsertedSuffixed(s, t, i, x);
    } else if Inserted(t, s, i) {
      InsertedSuffixed(t, s, i, x);
    } else {
      assert Replaced(s + [x], t + [x], i);
    }
  }

  lemma InsertedSuffixed(s: Text, t: Text, i: nat, x: int)
    requires Inserted(s, t, i)
    ensures Inserted(s + [x], t + [x], i)
  {
    assert t + [x] == s[..i] + [t[i]] + (s[i..] + [x]);
  }

  lemma ChainSuffixed(chain: seq<Text>, x: int)
    requires Chain(chain)
    ensures Chain(Suffixed(chain, x))
  {
    forall k | 0 <= k < |chain| - 1 ensures OneEdit(Suffixed(chain, x)[k], Suffixed(chain, x)[k + 1]) {
      OneEditSuffixed(chain[k], chain[k + 1], x);
    }
  }

  lemma ChainPrepend(s: Text, chain: seq<Text>)
    requires Chain(chain) && OneEdit(s, chain[0])
    ensures Chain([s] + chain)
  {
  }

  lemma ChainAppend(chain: seq<Text>, t: Text)
    requires Chain(chain) && OneEdit(chain[|chain| - 1], t)
    ensures Chain(chain + [t])
  {
  }

  /** Both texts lose their last element, which is kept or replaced. */
  lemma ChainOverLast(a: Text, b: Text, chain: seq<Text>) returns (r: seq<Text>)
    requires a != [] && b != []
    requires Chain(chain) && chain[0] == Init(a) && chain[|chain| - 1] == Init(b)
    ensures Chain(r) && r[0] == a && r[|r| - 1] == b && |r| == |chain| + Cost(Last(a), Last(b))
  {
    ChainSuffixed(chain, Last(a));
    r := Suffixed(chain, Last(a));
    assert r[0] == a && r[|r| - 1] == Init(b) + [Last(a)];
    if Last(a) != Last(b) {
      assert Replaced(Init(b) + [Last(a)], b, |b| - 1);
      ChainAppend(r, b);
      r := r + [b];
    }
  }

  lemma {:induction false} ShortestChain(a: Text, b: Text) returns (chain: seq<Text>)
    ensures Chain(chain) && chain[0] == a && chain[|chain| - 1] == b
    ensures |chain| - 1 == Dist(a, b)
    decreases |a| + |b|
  {
    if a == b {
      ZeroIffEqual(a, b);
      chain := [a];
    } else if a != [] && Dist(a, b) == Dist(Init(a), b) + 1 {
      chain := ShortestChain(Init(a), b);
      assert Inserted(Init(a), a, |a| - 1);
      ChainPrepend(a, chain);
      chain := [a] + chain;
    } else if b != [] && Dist(a, b) == Dist(a, Init(b)) + 1 {
      chain := ShortestChain(a, Init(b));
      assert Inserted(Init(b), b, |b| - 1);
      ChainAppend(chain, b);
      chain := chain + [b];
    } else {
      chain := ShortestChain(Init(a), Init(b));
      chain := ChainOverLast(a, b, chain);
    }
  }

  /** The distance is the least number of insertions, deletions and replacements. */
  lemma DistIsLeast(a: Text, b: Text)
    ensures exists chain :: Chain(chain) && chain[0] == a && chain[|chain| - 1] == b && |chain| - 1 == Dist(a, b)
    ensures forall chain :: Chain(chain) && chain[0] == a && chain[|chain| - 1] == b ==> Dist(a, b) <= |chain| - 1
  {
    var chain := ShortestChain(a, b);
    forall other | Chain(other) && other[0] == a && other[|other| - 1] == b ensures Dist(a, b) <= |other| - 1 {
      NoChainIsShorter(other);
    }
  }

  // ----- The program -----------------------------------------------------------------------------

  /** The place of row `j`, column `i` when only two rows of `n + 1` columns are kept. */
  function Cell(n: nat, i: nat, j: nat): (c: nat)
    requires i <= n
    ensures c < 2 * (n + 1)
    ensures c == if j % 2 == 0 then i else n + 1 + i
  {
    j % 2 * (n + 1) + i
  }

  lemma FirstCell(a: Text, b: Text, j: nat)
    requires j <= |b|
    ensures Dist(a[..0], b[..j]) == j
  {
  }

  lemma FirstRow(a: Text, b: Text, i: nat)
    requires i <= |a|
    ensures Dist(a[..i], b[..0]) == i
  {
  }

  lemma NextCell(a: Text, b: Text, i: nat, j: nat)
    requires 0 < i <= |a| && 0 < j <= |b|
    ensures Dist(a[..i], b[..j]) == Min3(Dist(a[..i - 1], b[..j]) + 1, Dist(a[..i], b[..j - 1]) + 1,
      Dist(a[..i - 1], b[..j - 1]) + Cost(a[i - 1], b[j - 1]))
  {
    hide Dist;
    LastSteps(a[..i], b[..j]);
    assert Init(a[..i]) == a[..i - 1] && Init(b[..j]) == b[..j - 1];
  }

  /** The first `m` columns of row `j` hold distances of prefixes. */
  ghost predicate Row(buf: seq<int>, a: Text, b: Text, j: nat, m: nat) {
    && |buf| >= 2 * (|a| + 1) && m <= |a| + 1 && j <= |b|
    && forall k | 0 <= k < m :: buf[Cell(|a|, k, j)] == Dist(a[..k], b[..j])
  }

  /** Computes row `j` from the row before it. */
  method FillRow(a: Text, b: Text, j: nat, buf: array<int>)
    requires 0 < j <= |b| && Row(buf[..], a, b, j - 1, |a| + 1)
    modifies buf
    ensures Row(buf[..], a, b, j, |a| + 1)
  {
    hide Cell;
    hide Dist;
    var n := |a|;
    FirstCell(a, b, j);
    buf[Cell(n, 0, j)] := j;
    for i := 1 to n + 1
      invariant Row(buf[..], a, b, j - 1, n + 1) && Row(buf[..], a, b, j, i)
    {
      NextCell(a, b, i, j);
      var subst := if a[i - 1] != b[j - 1] then 1 else 0;
      buf[Cell(n, i, j)] := Min3(
        buf[Cell(n, i - 1, j)] + 1,
        buf[Cell(n, i, j - 1)] + 1,
        buf[Cell(n, i - 1, j - 1)] + subst);
    }
  }

  /** The distance of two texts, with two rows of the shorter one's length in `buf`. */
  method DistBuffer(a0: Text, b0: Text, buf: array<int>) returns (result: int)
    requires buf.Length >= (|a0| + 1) + (|b0| + 1)
    modifies buf
    ensures result == Dist(a0, b0)
  {
    hide Cell;
    hide Dist;
    var a, b := a0, b0;
    if |a| > |b| {
      a, b := b, a;
      Symmetric(a0, b0);
    }
    var n := |a|;
    for i := 0 to n + 1
      invariant Row(buf[..], a, b, 0, i)
    {
      FirstRow(a, b, i);
      buf[Cell(n, i, 0)] := i;
    }
    for j := 1 to |b| + 1
      invariant Row(buf[..], a, b, j - 1, n + 1)
    {
      FillRow(a, b, j, buf);
    }
    result := buf[Cell(n, n, |b|)];
    assert a[..n] == a && b[..|b|] == b;
  }
}
