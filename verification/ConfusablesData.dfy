/** The generator of the confusables tables (scripts/generate_unicode_confusables_data.py): it packs
    a dictionary of decompositions into deduplicated tables. */
module ConfusablesData {

  /** What each code point is replaced by. */
  type Dictionary = map<int, seq<int>>

  datatype Slice = Slice(offset: nat, length: nat)

  datatype Tables = Tables(lengths: seq<nat>, chars: seq<int>, slices: seq<Slice>, data: seq<int>)

  /** The tables hold the entries of the dictionary, by ascending code point, and nothing else. */
  ghost predicate Represents(t: Tables, d: Dictionary) {
    && |t.slices| == |t.chars|
    && Ascending(t.chars, IntLess)
    && (forall c :: c in t.chars <==> c in d)
    && forall i | 0 <= i < |t.chars| :: HoldsEntry(t, t.slices[i], d[t.chars[i]])
  }

  ghost predicate HoldsEntry(t: Tables, s: Slice, entry: seq<int>) {
    && s.length < |t.lengths|
    && s.offset + t.lengths[s.length] <= |t.data|
    && t.data[s.offset..][..t.lengths[s.length]] == entry
  }

  // ----- Sorted sets -----------------------------------------------------------------------------

  ghost predicate StrictOrder<T(!new)>(less: (T, T) -> bool) {
    && (forall a :: !less(a, a))
    && (forall a, b :: a == b || less(a, b) || less(b, a))
    && forall a, b, c :: less(a, b) && less(b, c) ==> less(a, c)
  }

  ghost predicate Ascending<T>(s: seq<T>, less: (T, T) -> bool) {
    forall i, j | 0 <= i < j < |s| :: less(s[i], s[j])
  }

  lemma {:induction false} LeastExists<T(!new)>(s: set<T>, less: (T, T) -> bool)
    requires s != {} && StrictOrder(less)
    ensures exists m | m in s :: forall x | x in s :: x == m || less(m, x)
  {
    var y :| y in s;
    if s == {y} {
    } else {
      LeastExists(s - {y}, less);
      var m :| m in s - {y} && forall x | x in s - {y} :: x == m || less(m, x);
      var least := if less(y, m) then y else m;
      forall x | x in s ensures x == least || less(least, x) {
        assert x == y || x == m || less(m, x);
      }
    }
  }

  method Sorted<T(!new, ==)>(s: set<T>, less: (T, T) -> bool) returns (r: seq<T>)
    requires StrictOrder(less)
    ensures Ascending(r, less) && forall x :: x in r <==> x in s
  {
    r := [];
    var rest := s;
    while rest != {}
      invariant rest <= s && Ascending(r, less)
      invariant forall x :: x in r <==> x in s - rest
      invariant forall i, x | 0 <= i < |r| && x in rest :: less(r[i], x)
      decreases rest
    {
      LeastExists(rest, less);
      var m :| m in rest && forall x | x in rest :: x == m || less(m, x);
      r, rest := r + [m], rest - {m};
    }
  }

  predicate IntLess(a: int, b: int) {
    a < b
  }

  /** The order of tuples: by the first element that differs, and the shorter one first. */
  predicate TupleLess(a: seq<int>, b: seq<int>) {
    b != [] && (a == [] || a[0] < b[0] || (a[0] == b[0] && TupleLess(a[1..], b[1..])))
  }

  lemma TupleOrder()
    ensures StrictOrder(TupleLess)
  {
    forall a ensures !TupleLess(a, a) {
      TupleIrreflexive(a);
    }
    forall a, b ensures a == b || TupleLess(a, b) || TupleLess(b, a) {
      TupleTotal(a, b);
    }
    forall a, b, c | TupleLess(a, b) && TupleLess(b, c) ensures TupleLess(a, c) {
      TupleTransitive(a, b, c);
    }
  }

  lemma {:induction false} TupleIrreflexive(a: seq<int>)
    ensures !TupleLess(a, a)
  {
    if a != [] {
      TupleIrreflexive(a[1..]);
    }
  }

  lemma {:induction false} TupleTotal(a: seq<int>, b: seq<int>)
    ensures a == b || TupleLess(a, b) || TupleLess(b, a)
  {
    if a != [] && b != [] {
      TupleTotal(a[1..], b[1..]);
      if a[0] == b[0] && a[1..] == b[1..] {
        assert a == [a[0]] + a[1..] && b == [b[0]] + b[1..];
      }
    }
  }

  lemma {:induction false} TupleTransitive(a: seq<int>, b: seq<int>, c: seq<int>)
    requires TupleLess(a, b) && TupleLess(b, c)
    ensures TupleLess(a, c)
  {
    if a != [] && a[0] == b[0] == c[0] {
      TupleTransitive(a[1..], b[1..], c[1..]);
    }
  }

  // ----- Packing ---------------------------------------------------------------------------------

  function Concat(ds: seq<seq<int>>): seq<int> {
    if ds == [] then [] else Concat(ds[..|ds| - 1]) + ds[|ds| - 1]
  }

  /** Where the entry `i` starts. */
  function Offset(ds: seq<seq<int>>, i: nat): nat
    requires i <= |ds|
  {
    |Concat(ds[..i])|
  }

  lemma {:induction false} ConcatAt(ds: seq<seq<int>>, i: nat)
    requires i < |ds|
    ensures Offset(ds, i) + |ds[i]| == Offset(ds, i + 1) <= |Concat(ds)|
    ensures Concat(ds)[Offset(ds, i)..][..|ds[i]|] == ds[i]
  {
    assert ds[..i + 1][..i] == ds[..i];
    if i < |ds| - 1 {
      var front := ds[..|ds| - 1];
      ConcatAt(front, i);
      assert front[..i] == ds[..i] && front[..i + 1] == ds[..i + 1];
      assert Concat(ds)[Offset(ds, i)..][..|ds[i]|] == Concat(front)[Offset(ds, i)..][..|ds[i]|];
    } else {
      assert ds[..|ds|] == ds;
    }
  }

  /** What the generator computes before it writes anything out. */
  ghost predicate Deduplicates(d: Dictionary, ds: seq<seq<int>>, offsets: seq<nat>, lens: seq<int>) {
    && Ascending(ds, TupleLess) && (forall e :: e in ds <==> e in Entries(d))
    && |offsets| == |ds| && (forall i | 0 <= i < |ds| :: offsets[i] == Offset(ds, i))
    && Ascending(lens, IntLess) && (forall n :: n in lens <==> n in Lengths(d))
  }

  function Entries(d: Dictionary): set<seq<int>> {
    set k | k in d :: d[k]
  }

  function Lengths(d: Dictionary): set<int> {
    set k | k in d :: |d[k]|
  }

  lemma EntryIn(d: Dictionary, k: int)
    requires k in d
    ensures d[k] in Entries(d) && |d[k]| in Lengths(d)
  {
  }

  lemma LengthsOf(d: Dictionary, ds: seq<seq<int>>)
    requires forall e :: e in ds <==> e in Entries(d)
    ensures (set e | e in ds :: |e|) == Lengths(d)
  {
    forall n | n in Lengths(d) ensures exists e | e in ds :: |e| == n {
      var k :| k in d && |d[k]| == n;
      assert d[k] in Entries(d);
    }
    forall e | e in ds ensures |e| in Lengths(d) {
      assert e in Entries(d);
      var k :| k in d && d[k] == e;
    }
  }

  /** Fails if the entries have more than eight lengths. */
  method Deduplicate(d: Dictionary) returns (ok: bool, ds: seq<seq<int>>, offsets: seq<nat>, lens: seq<int>)
    ensures ok <==> |Lengths(d)| <= 8
    ensures Deduplicates(d, ds, offsets, lens)
  {
    TupleOrder();
    ds := Sorted(Entries(d), TupleLess);
    var lenSet: set<int> := set e | e in ds :: |e|;
    LengthsOf(d, ds);
    lens := Sorted(lenSet, IntLess);
    SizeOf(lens, lenSet);
    ok := |lens| <= 8;
    var cur := 0;
    offsets := [];
    for i := 0 to |ds|
      invariant |offsets| == i && cur == Offset(ds, i)
      invariant forall j | 0 <= j < i :: offsets[j] == Offset(ds, j)
    {
      ConcatAt(ds, i);
      offsets := offsets + [cur];
      cur := cur + |ds[i]|;
    }
  }

  lemma {:induction false} SizeOf(s: seq<int>, xs: set<int>)
    requires Ascending(s, IntLess) && forall x :: x in s <==> x in xs
    ensures |s| == |xs|
  {
    if s != [] {
      var n := |s| - 1;
      assert forall x :: x in s <==> x in s[..n] || x == s[n];
      SizeOf(s[..n], xs - {s[n]});
    } else {
      assert forall x :: x !in xs;
    }
  }

  function IndexIn<T(==)>(s: seq<T>, x: T): (i: nat)
    requires x in s
    ensures i < |s| && s[i] == x
  {
    if s[0] == x then 0 else 1 + IndexIn(s[1..], x)
  }

  /** The entries are small enough for the bit fields of the tables. */
  ghost predicate Fits(ds: seq<seq<int>>) {
    forall i | 0 <= i < |ds| :: Offset(ds, i) < 0x2000 && |ds[i]| < 0x100
  }

  /** Fewer than 2^13 elements in entries of less than 2^8 always fit, and no offset or length beyond. */
  lemma FitsBelow(ds: seq<seq<int>>)
    ensures |Concat(ds)| < 8192 && (forall e | e in ds :: |e| < 256) ==> Fits(ds)
    ensures (exists i :: 0 <= i < |ds| && (Offset(ds, i) > 8191 || |ds[i]| > 255)) ==> !Fits(ds)
  {
    hide Concat, Offset;
    forall i | 0 <= i < |ds| ensures Offset(ds, i) + |ds[i]| <= |Concat(ds)| && ds[i] in ds {
      ConcatAt(ds, i);
    }
  }

  /** Writes the tables; the compiled bit fields keep 13 bits of an offset, the lengths 8 bits. */
  method GenData(d: Dictionary, ds: seq<seq<int>>, offsets: seq<nat>, lens: seq<int>) returns (t: Tables)
    requires Deduplicates(d, ds, offsets, lens) && |Lengths(d)| <= 8
    ensures Fits(ds) ==> Represents(t, d)
    ensures forall i | 0 <= i < |t.slices| :: t.slices[i].length < 8
    ensures t.data == Concat(ds)
  {
    hide Concat, Offset, Fits, Deduplicates;
    SizeOfLens(d, ds, offsets, lens);
    var lengths := GenLengths(lens);
    var chars := Sorted(d.Keys, IntLess);
    var slices := GenSlices(d, ds, offsets, lens, chars);
    var data := GenEntries(ds);
    t := Tables(lengths, chars, slices, data);
    if Fits(ds) {
      forall i | 0 <= i < |chars| ensures HoldsEntry(t, slices[i], d[chars[i]]) {
        SliceHolds(t, d[chars[i]], ds, lens, slices[i]);
      }
    }
  }

  lemma SizeOfLens(d: Dictionary, ds: seq<seq<int>>, offsets: seq<nat>, lens: seq<int>)
    requires Deduplicates(d, ds, offsets, lens)
    ensures |lens| == |Lengths(d)|
  {
    SizeOf(lens, Lengths(d));
  }

  method GenLengths(lens: seq<int>) returns (lengths: seq<nat>)
    ensures |lengths| == |lens| && forall j | 0 <= j < |lens| :: lengths[j] == lens[j] % 0x100
  {
    lengths := [];
    for i := 0 to |lens|
      invariant |lengths| == i && forall j | 0 <= j < i :: lengths[j] == lens[j] % 0x100
    {
      lengths := lengths + [lens[i] % 0x100];
    }
  }

  method GenSlices(d: Dictionary, ds: seq<seq<int>>, offsets: seq<nat>, lens: seq<int>, chars: seq<int>)
    returns (slices: seq<Slice>)
    requires Deduplicates(d, ds, offsets, lens) && forall j | 0 <= j < |chars| :: chars[j] in d
    ensures |slices| == |chars|
    ensures forall j | 0 <= j < |chars| :: SliceFor(d[chars[j]], ds, lens, slices[j])
  {
    hide Concat, Offset;
    slices := [];
    for i := 0 to |chars|
      invariant |slices| == i
      invariant forall j | 0 <= j < i :: SliceFor(d[chars[j]], ds, lens, slices[j])
    {
      var entry := d[chars[i]];
      EntryIn(d, chars[i]);
      var k, l := IndexIn(ds, entry), IndexIn(lens, |entry|);
      slices := slices + [Slice(offsets[k] % 0x2000, l)];
    }
  }

  method GenEntries(ds: seq<seq<int>>) returns (data: seq<int>)
    ensures data == Concat(ds)
  {
    data := [];
    for i := 0 to |ds|
      invariant data == Concat(ds[..i])
    {
      assert ds[..i + 1][..i] == ds[..i];
      data := data + ds[i];
    }
    assert ds[..|ds|] == ds;
  }

  predicate SliceFor(entry: seq<int>, ds: seq<seq<int>>, lens: seq<int>, s: Slice) {
    && s.length < |lens| && lens[s.length] == |entry|
    && exists k | 0 <= k < |ds| :: ds[k] == entry && s.offset == Offset(ds, k) % 0x2000
  }

  lemma SliceHolds(t: Tables, entry: seq<int>, ds: seq<seq<int>>, lens: seq<int>, s: Slice)
    requires Fits(ds) && SliceFor(entry, ds, lens, s) && t.data == Concat(ds)
    requires |t.lengths| == |lens| && forall j | 0 <= j < |lens| :: t.lengths[j] == lens[j] % 0x100
    ensures HoldsEntry(t, s, entry)
  {
    hide Concat, Offset, Fits;
    var k :| 0 <= k < |ds| && ds[k] == entry && s.offset == Offset(ds, k) % 0x2000;
    ConcatAt(ds, k);
    FitsAt(ds, k);
  }

  lemma FitsAt(ds: seq<seq<int>>, k: nat)
    requires Fits(ds) && k < |ds|
    ensures Offset(ds, k) % 0x2000 == Offset(ds, k) && |ds[k]| % 0x100 == |ds[k]|
  {
    hide Concat, Offset;
  }
}
