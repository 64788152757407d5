/** The flow field of src/engine/client/ai.cpp: a search from every finish tile over an
    8-connected grid that leaves, in each tile, the packed direction of a cheapest way to a finish.

    The field, the best distances and the work list are updated in place by `FlowField.SetupField`;
    what the result means is stated over `LegalPath`, which knows nothing of the search. */
module FlowFields {
  import opened Grids

  const TILE_SOLID := 1
  const TILE_NOHOOK := 3
  const TILE_FREEZE := 9
  const TILE_FINISH := 34

  /** The cost of a diagonal step: a constant of the program; every result holds for any such cost. */
  type Diagonal = r: real | 1.0 < r < 2.0 witness 1.5

  datatype Dist = Inf | Fin(d: real)
  /** One entry of the work list: a tile and the cost at which it was reached. */
  datatype Entry = Entry(d: real, p: Pos)

  datatype BoardData = Board(w: nat, h: nat, tiles: seq<int>, diag: Diagonal)
  type Board = b: BoardData | |b.tiles| == b.w * b.h witness Board(0, 0, [], 1.5)

  predicate IsSolid(t: int) {
    t == TILE_SOLID || t == TILE_NOHOOK || t == TILE_FREEZE
  }

  predicate In(b: Board, p: Pos) {
    0 <= p.x < b.w && 0 <= p.y < b.h
  }

  function Idx(b: Board, p: Pos): (i: nat)
    requires In(b, p)
    ensures i < b.w * b.h
  {
    FlatBound(p.x, p.y, b.w, b.h);
    p.y * b.w + p.x
  }

  lemma IdxInjective(b: Board, p: Pos, q: Pos)
    requires In(b, p) && In(b, q)
    ensures Idx(b, p) == Idx(b, q) ==> p == q
  {
    FlatInjective(b.w, p.x, p.y, q.x, q.y);
  }

  predicate SolidAt(b: Board, p: Pos)
    requires In(b, p)
  {
    IsSolid(b.tiles[Idx(b, p)])
  }

  predicate FinishAt(b: Board, p: Pos)
    requires In(b, p)
  {
    b.tiles[Idx(b, p)] == TILE_FINISH
  }

  // ----- What the field promises: cheapest legal paths ---------------------------------------

  /** A legal step: between two free tiles that touch, and a diagonal step cuts no solid corner. */
  predicate Step(b: Board, p: Pos, q: Pos) {
    && In(b, p) && In(b, q) && p != q
    && -1 <= p.x - q.x <= 1 && -1 <= p.y - q.y <= 1
    && !SolidAt(b, p) && !SolidAt(b, q)
    && (p.x != q.x && p.y != q.y ==> !SolidAt(b, Pos(p.x, q.y)) && !SolidAt(b, Pos(q.x, p.y)))
  }

  function StepCost(b: Board, p: Pos, q: Pos): (c: real)
    ensures c >= 1.0
  {
    if p.x != q.x && p.y != q.y then b.diag else 1.0
  }

  /** A path of legal steps that ends on a finish tile. */
  predicate LegalPath(b: Board, path: seq<Pos>) {
    && |path| > 0 && In(b, path[0])
    && if |path| == 1 then FinishAt(b, path[0])
       else Step(b, path[0], path[1]) && LegalPath(b, path[1..])
  }

  function PathCost(b: Board, path: seq<Pos>): (c: real)
    ensures c >= 0.0
  {
    if |path| <= 1 then 0.0 else StepCost(b, path[0], path[1]) + PathCost(b, path[1..])
  }

  ghost predicate Attains(b: Board, p: Pos, d: real) {
    exists path :: LegalPath(b, path) && path[0] == p && PathCost(b, path) == d
  }

  /** `d` is the least cost of any legal path from `p` to a finish; infinite when there is none. */
  ghost predicate IsLeast(b: Board, p: Pos, d: Dist) {
    match d
    case Inf => forall path :: LegalPath(b, path) ==> path[0] != p
    case Fin(c) =>
      && Attains(b, p, c)
      && forall path :: LegalPath(b, path) && path[0] == p ==> c <= PathCost(b, path)
  }

  // ----- The packed direction ----------------------------------------------------------------

  /** The tile one step away from `p` in the direction that the field value `v` encodes. */
  function Next(p: Pos, v: int): Pos {
    Pos(p.x + (v % 3 - 1), p.y + (v / 3 - 1))
  }

  function Pack(dx: int, dy: int): int {
    (1 - dy) * 3 + (1 - dx)
  }

  /** The field leads tile `p`, if it is reached and no finish, one legal step down the distances. */
  ghost predicate Guided(b: Board, field: seq<int>, bd: seq<Dist>, p: Pos)
    requires |field| == |bd| == b.w * b.h && In(b, p)
  {
    var v := At(b, field, p);
    if At(b, bd, p).Fin? && !FinishAt(b, p) then
      && v != 4
      && Step(b, p, Next(p, v))
      && At(b, bd, Next(p, v)).Fin?
      && At(b, bd, p).d == At(b, bd, Next(p, v)).d + StepCost(b, p, Next(p, v))
    else v == 4
  }

  ghost predicate Guides(b: Board, field: seq<int>, bd: seq<Dist>)
    requires |field| == |bd| == b.w * b.h
  {
    forall p | In(b, p) :: Guided(b, field, bd, p)
  }

  // ----- The ordered work list ---------------------------------------------------------------

  predicate Sorted(wl: seq<Entry>) {
    forall i, j :: 0 <= i < j < |wl| ==> wl[i].d <= wl[j].d
  }

  /** The number of leading entries that are not dearer than `d`. */
  function UpperBound(wl: seq<Entry>, d: real): (k: nat)
    requires Sorted(wl)
    ensures k <= |wl|
    ensures forall i :: 0 <= i < k ==> wl[i].d <= d
    ensures forall i :: k <= i < |wl| ==> d < wl[i].d
  {
    if wl == [] then 0
    else if wl[|wl|-1].d <= d then |wl|
    else UpperBound(wl[..|wl|-1], d)
  }

  /** Insertion into an ordered multiset: behind every entry that is not dearer. */
  function Insert(wl: seq<Entry>, e: Entry): (r: seq<Entry>)
    requires Sorted(wl)
    ensures |r| == |wl| + 1 && Sorted(r)
    ensures multiset(r) == multiset(wl) + multiset{e}
    ensures |wl| > 0 && wl[0].d <= e.d ==> r[0] == wl[0]
  {
    var k := UpperBound(wl, e.d);
    InsertAt(wl, k, e);
    wl[..k] + [e] + wl[k..]
  }

  lemma InsertAt(wl: seq<Entry>, k: nat, e: Entry)
    requires Sorted(wl) && k <= |wl|
    requires (forall i :: 0 <= i < k ==> wl[i].d <= e.d) && forall i :: k <= i < |wl| ==> e.d < wl[i].d
    ensures Sorted(wl[..k] + [e] + wl[k..])
    ensures multiset(wl[..k] + [e] + wl[k..]) == multiset(wl) + multiset{e}
  {
    InsertSorted(wl, k, e);
    hide Sorted;
    assert wl == wl[..k] + wl[k..];
  }

  lemma InsertSorted(wl: seq<Entry>, k: nat, e: Entry)
    requires Sorted(wl) && k <= |wl|
    requires (forall i :: 0 <= i < k ==> wl[i].d <= e.d) && forall i :: k <= i < |wl| ==> e.d < wl[i].d
    ensures Sorted(wl[..k] + [e] + wl[k..])
  {
    var r := wl[..k] + [e] + wl[k..];
    forall i, j | 0 <= i < j < |r| ensures r[i].d <= r[j].d {
      assert r[i] == if i < k then wl[i] else if i == k then e else wl[i - 1];
      assert r[j] == if j < k then wl[j] else if j == k then e else wl[j - 1];
    }
  }

  // ----- The invariant of the search ---------------------------------------------------------

  function At<T>(b: Board, s: seq<T>, p: Pos): T
    requires |s| == b.w * b.h && In(b, p)
  {
    s[Idx(b, p)]
  }

  /** An entry is never cheaper than the best distance known for its tile. */
  ghost predicate EntriesOk(b: Board, bd: seq<Dist>, wl: seq<Entry>)
    requires |bd| == b.w * b.h
  {
    forall e | e in wl :: In(b, e.p) && At(b, bd, e.p).Fin? && At(b, bd, e.p).d <= e.d && e.d >= 0.0
  }

  /** No expanded tile is dearer than an entry that waits. */
  ghost predicate Frontier(b: Board, bd: seq<Dist>, wl: seq<Entry>, done: set<Pos>)
    requires |bd| == b.w * b.h
  {
    && (forall p | p in done :: In(b, p) && At(b, bd, p).Fin?)
    && (forall p, e | p in done && e in wl :: At(b, bd, p).d <= e.d)
  }

  /** Each finite distance is the cost of some path. */
  ghost predicate Sound(b: Board, bd: seq<Dist>)
    requires |bd| == b.w * b.h
  {
    forall p | In(b, p) && At(b, bd, p).Fin? :: Attains(b, p, At(b, bd, p).d) && !SolidAt(b, p)
  }

  /** A tile that is reached but not expanded waits with its best distance. */
  ghost predicate Waiting(b: Board, bd: seq<Dist>, wl: seq<Entry>, done: set<Pos>)
    requires |bd| == b.w * b.h
  {
    forall p | In(b, p) && At(b, bd, p).Fin? && p !in done :: Entry(At(b, bd, p).d, p) in wl
  }

  ghost predicate FinishesOk(b: Board, bd: seq<Dist>)
    requires |bd| == b.w * b.h
  {
    forall p | In(b, p) && FinishAt(b, p) :: At(b, bd, p) == Fin(0.0)
  }

  /** The part of the invariant that holds in the middle of an expansion, too.
      `done` are the tiles whose expansion has begun. */
  ghost predicate Partial(b: Board, bd: seq<Dist>, field: seq<int>, wl: seq<Entry>, done: set<Pos>) {
    && |bd| == |field| == b.w * b.h
    && Sorted(wl)
    && EntriesOk(b, bd, wl) && Frontier(b, bd, wl, done) && Sound(b, bd)
    && Waiting(b, bd, wl, done) && FinishesOk(b, bd)
    && Guides(b, field, bd) && PointsToDone(b, bd, field, done)
  }

  /** Every step into an expanded tile has been taken into account. */
  ghost predicate Relaxed(b: Board, bd: seq<Dist>, p: Pos, q: Pos)
    requires |bd| == b.w * b.h && In(b, p)
  {
    Step(b, q, p) && bd[Idx(b, p)].Fin? ==>
      bd[Idx(b, q)].Fin? && bd[Idx(b, q)].d <= bd[Idx(b, p)].d + StepCost(b, q, p)
  }

  ghost predicate AllRelaxed(b: Board, bd: seq<Dist>, done: set<Pos>)
    requires |bd| == b.w * b.h
  {
    forall p, q | p in done && In(b, p) :: Relaxed(b, bd, p, q)
  }

  /** Each direction written so far points to an expanded tile. */
  ghost predicate PointsToDone(b: Board, bd: seq<Dist>, field: seq<int>, done: set<Pos>)
    requires |bd| == |field| == b.w * b.h
  {
    forall p | In(b, p) && At(b, bd, p).Fin? && !FinishAt(b, p) :: Next(p, At(b, field, p)) in done
  }

  lemma InsertIn(wl: seq<Entry>, e: Entry)
    requires Sorted(wl)
    ensures forall x :: x in Insert(wl, e) <==> x == e || x in wl
  {
    forall x ensures x in Insert(wl, e) <==> x == e || x in wl {
      assert x in Insert(wl, e) <==> x in multiset(Insert(wl, e));
      assert x in wl <==> x in multiset(wl);
    }
  }

  /** Going from `q` to `p` first and then as before is a path, with the sum of the costs. */
  lemma AttainsBy(b: Board, q: Pos, p: Pos, d: real)
    requires Step(b, q, p) && Attains(b, p, d)
    ensures Attains(b, q, d + StepCost(b, q, p))
  {
    var path :| LegalPath(b, path) && path[0] == p && PathCost(b, path) == d;
    var longer := [q] + path;
    assert longer[1..] == path;
    assert LegalPath(b, longer) && PathCost(b, longer) == d + StepCost(b, q, p);
  }

  lemma PackNext(p: Pos, dx: int, dy: int)
    requires -1 <= dx <= 1 && -1 <= dy <= 1
    ensures Next(Pos(p.x + dx, p.y + dy), Pack(dx, dy)) == p
    ensures Pack(dx, dy) == 4 <==> dx == dy == 0
  {
  }

  lemma AtUpdate<T>(b: Board, s: seq<T>, q: Pos, x: T)
    requires |s| == b.w * b.h && In(b, q)
    ensures forall o :: In(b, o) ==> At(b, s[Idx(b, q) := x], o) == if o == q then x else At(b, s, o)
  {
    forall o | In(b, o) ensures At(b, s[Idx(b, q) := x], o) == if o == q then x else At(b, s, o) {
      IdxInjective(b, o, q);
    }
  }

  /** When tile `q`, one step before the expanded tile `wl[0].p`, can be improved. */
  ghost predicate Improvable(b: Board, bd: seq<Dist>, field: seq<int>, wl: seq<Entry>, done: set<Pos>, q: Pos) {
    && Partial(b, bd, field, wl, done)
    && |wl| > 0 && wl[0].p in done && At(b, bd, wl[0].p) == Fin(wl[0].d)
    && Step(b, q, wl[0].p)
    && (At(b, bd, q).Fin? ==> At(b, bd, q).d > wl[0].d + StepCost(b, q, wl[0].p))
  }

  /** What the list and the distances look like after an improvement, without how they got there. */
  ghost predicate Improved(b: Board, bd: seq<Dist>, wl: seq<Entry>, e: Entry, bd': seq<Dist>, wl': seq<Entry>)
    requires |bd| == |bd'| == b.w * b.h
  {
    && In(b, e.p)
    && (forall o :: In(b, o) ==> At(b, bd', o) == if o == e.p then Fin(e.d) else At(b, bd, o))
    && (forall x :: x in wl' <==> x == e || x in wl)
  }

  lemma ImproveEntries(b: Board, bd: seq<Dist>, wl: seq<Entry>, e: Entry, bd': seq<Dist>, wl': seq<Entry>)
    requires |bd| == |bd'| == b.w * b.h && Improved(b, bd, wl, e, bd', wl') && EntriesOk(b, bd, wl)
    requires e.d >= 0.0 && (At(b, bd, e.p).Fin? ==> At(b, bd, e.p).d > e.d)
    ensures EntriesOk(b, bd', wl')
  {
  }

  lemma ImproveFrontier(b: Board, bd: seq<Dist>, wl: seq<Entry>, e: Entry, bd': seq<Dist>, wl': seq<Entry>,
      done: set<Pos>, cur: Entry)
    requires |bd| == |bd'| == b.w * b.h && Improved(b, bd, wl, e, bd', wl') && Frontier(b, bd, wl, done)
    requires cur in wl && cur.d < e.d && (At(b, bd, e.p).Fin? ==> At(b, bd, e.p).d > e.d)
    ensures Frontier(b, bd', wl', done)
  {
    forall p, x | p in done && x in wl' ensures At(b, bd', p).Fin? && At(b, bd', p).d <= x.d {
      assert At(b, bd, p).Fin? && At(b, bd, p).d <= cur.d;
      assert p != e.p;
    }
  }

  lemma ImproveWaiting(b: Board, bd: seq<Dist>, wl: seq<Entry>, e: Entry, bd': seq<Dist>, wl': seq<Entry>, done: set<Pos>)
    requires |bd| == |bd'| == b.w * b.h && Improved(b, bd, wl, e, bd', wl') && Waiting(b, bd, wl, done)
    ensures Waiting(b, bd', wl', done)
  {
  }

  lemma ImproveSound(b: Board, bd: seq<Dist>, wl: seq<Entry>, e: Entry, bd': seq<Dist>, wl': seq<Entry>)
    requires |bd| == |bd'| == b.w * b.h && Improved(b, bd, wl, e, bd', wl')
    requires Sound(b, bd) && FinishesOk(b, bd)
    requires Attains(b, e.p, e.d) && !SolidAt(b, e.p) && !FinishAt(b, e.p)
    ensures Sound(b, bd') && FinishesOk(b, bd')
  {
  }

  lemma ImproveField(b: Board, bd: seq<Dist>, field: seq<int>, wl: seq<Entry>, done: set<Pos>, e: Entry, v: int,
      bd': seq<Dist>, field': seq<int>, wl': seq<Entry>)
    requires |bd| == |bd'| == |field| == |field'| == b.w * b.h && Improved(b, bd, wl, e, bd', wl')
    requires forall o :: In(b, o) ==> At(b, field', o) == if o == e.p then v else At(b, field, o)
    requires Guides(b, field, bd) && PointsToDone(b, bd, field, done)
    requires e.p !in done && !FinishAt(b, e.p)
    requires v != 4 && Next(e.p, v) in done && Step(b, e.p, Next(e.p, v))
    requires At(b, bd, Next(e.p, v)) == Fin(e.d - StepCost(b, e.p, Next(e.p, v)))
    ensures Guides(b, field', bd') && PointsToDone(b, bd', field', done)
  {
    forall o | In(b, o) ensures Guided(b, field', bd', o) {
      assert Guided(b, field, bd, o);
    }
  }

  lemma ImproveWhen(b: Board, bd: seq<Dist>, field: seq<int>, wl: seq<Entry>, done: set<Pos>, e: Entry)
    requires Improvable(b, bd, field, wl, done, e.p) && e.d == wl[0].d + StepCost(b, e.p, wl[0].p)
    ensures wl[0] in wl && e.p !in done && !FinishAt(b, e.p)
    ensures Attains(b, e.p, e.d) && wl[0].d < e.d && e.d >= 0.0
  {
    assert wl[0] in wl;
    assert forall p | p in done :: In(b, p) && At(b, bd, p).Fin? && At(b, bd, p).d <= wl[0].d;
    AttainsBy(b, e.p, wl[0].p, wl[0].d);
  }

  lemma ImproveAll(b: Board, bd: seq<Dist>, field: seq<int>, wl: seq<Entry>, done: set<Pos>, e: Entry, v: int,
      bd': seq<Dist>, field': seq<int>, wl': seq<Entry>)
    requires Improvable(b, bd, field, wl, done, e.p) && e.d == wl[0].d + StepCost(b, e.p, wl[0].p)
    requires v != 4 && Next(e.p, v) == wl[0].p
    requires |bd'| == |field'| == b.w * b.h && Sorted(wl') && Improved(b, bd, wl, e, bd', wl')
    requires forall o :: In(b, o) ==> At(b, field', o) == if o == e.p then v else At(b, field, o)
    ensures Partial(b, bd', field', wl', done)
  {
    hide EntriesOk;
    hide Frontier;
    hide Sound;
    hide Waiting;
    hide FinishesOk;
    hide Guides;
    hide PointsToDone;
    hide Attains;
    ImproveWhen(b, bd, field, wl, done, e);
    ImproveEntries(b, bd, wl, e, bd', wl');
    ImproveFrontier(b, bd, wl, e, bd', wl', done, wl[0]);
    ImproveWaiting(b, bd, wl, e, bd', wl', done);
    ImproveSound(b, bd, wl, e, bd', wl');
    ImproveField(b, bd, field, wl, done, e, v, bd', field', wl');
  }

  /** Improving a tile keeps the invariant of the search. */
  lemma Improve(b: Board, bd: seq<Dist>, field: seq<int>, wl: seq<Entry>, done: set<Pos>, e: Entry, v: int,
      bd': seq<Dist>, field': seq<int>, wl': seq<Entry>)
    requires Improvable(b, bd, field, wl, done, e.p) && e.d == wl[0].d + StepCost(b, e.p, wl[0].p)
    requires v != 4 && Next(e.p, v) == wl[0].p
    requires bd' == bd[Idx(b, e.p) := Fin(e.d)] && field' == field[Idx(b, e.p) := v] && wl' == Insert(wl, e)
    ensures Partial(b, bd', field', wl', done) && wl'[0] == wl[0] && Improved(b, bd, wl, e, bd', wl')
  {
    hide EntriesOk;
    hide Frontier;
    hide Sound;
    hide Waiting;
    hide FinishesOk;
    hide Guides;
    hide PointsToDone;
    hide Insert;
    hide Sorted;
    hide Idx;
    AtUpdate(b, bd, e.p, Fin(e.d));
    AtUpdate(b, field, e.p, v);
    InsertIn(wl, e);
    ImproveAll(b, bd, field, wl, done, e, v, bd', field', wl');
  }

  /** An improvement elsewhere keeps a tile's steps accounted for. */
  lemma ImproveRelaxed(b: Board, bd: seq<Dist>, wl: seq<Entry>, e: Entry, bd': seq<Dist>, wl': seq<Entry>, p: Pos, q: Pos)
    requires |bd| == |bd'| == b.w * b.h && Improved(b, bd, wl, e, bd', wl')
    requires In(b, p) && p != e.p && Relaxed(b, bd, p, q)
    requires At(b, bd, e.p).Fin? ==> At(b, bd, e.p).d > e.d
    ensures Relaxed(b, bd', p, q)
  {
  }

  /** The cheapest entry that waits for a tile not yet expanded carries the tile's best distance. */
  lemma Begin(b: Board, bd: seq<Dist>, field: seq<int>, wl: seq<Entry>, done: set<Pos>)
    requires Partial(b, bd, field, wl, done) && |wl| > 0 && wl[0].p !in done
    ensures In(b, wl[0].p) && At(b, bd, wl[0].p) == Fin(wl[0].d)
    ensures Partial(b, bd, field, wl, done + {wl[0].p})
  {
    var p := wl[0].p;
    assert wl[0] in wl;
    assert Entry(At(b, bd, p).d, p) in wl;
    forall x, e | x in done + {p} && e in wl ensures At(b, bd, x).d <= e.d {
    }
  }

  /** With the work list empty, a distance is at most the cost of any path from its tile. */
  lemma {:induction false} NoPathIsCheaper(b: Board, bd: seq<Dist>, field: seq<int>, done: set<Pos>, path: seq<Pos>)
    requires Partial(b, bd, field, [], done) && AllRelaxed(b, bd, done)
    requires LegalPath(b, path)
    ensures At(b, bd, path[0]).Fin? && At(b, bd, path[0]).d <= PathCost(b, path)
  {
    if |path| > 1 {
      NoPathIsCheaper(b, bd, field, done, path[1..]);
      assert path[1] in done;
      assert Relaxed(b, bd, path[1], path[0]);
    }
  }

  /** The field and the distances that a finished search leaves are optimal for every tile. */
  lemma Optimal(b: Board, bd: seq<Dist>, field: seq<int>, done: set<Pos>, p: Pos)
    requires Partial(b, bd, field, [], done) && AllRelaxed(b, bd, done) && In(b, p)
    ensures IsLeast(b, p, At(b, bd, p))
  {
    forall path | LegalPath(b, path) && path[0] == p
      ensures At(b, bd, p).Fin? && At(b, bd, p).d <= PathCost(b, path)
    {
      NoPathIsCheaper(b, bd, field, done, path);
    }
  }

  // ----- Following the field -----------------------------------------------------------------

  /** Every step of `path` is the one that the field shows. */
  predicate Follows(b: Board, field: seq<int>, path: seq<Pos>)
    requires |field| == b.w * b.h
  {
    forall i :: 0 <= i < |path| - 1 ==> In(b, path[i]) && path[i+1] == Next(path[i], At(b, field, path[i]))
  }

  /** A shortest walk from the tile that the field shows is continued to one from `p`. */
  lemma PrependWalk(b: Board, field: seq<int>, bd: seq<Dist>, p: Pos, rest: seq<Pos>)
    requires |field| == |bd| == b.w * b.h && In(b, p) && Guided(b, field, bd, p)
    requires At(b, bd, p).Fin? && !FinishAt(b, p)
    requires LegalPath(b, rest) && rest[0] == Next(p, At(b, field, p)) && Follows(b, field, rest)
    requires PathCost(b, rest) == At(b, bd, rest[0]).d
    ensures LegalPath(b, [p] + rest) && Follows(b, field, [p] + rest)
    ensures PathCost(b, [p] + rest) == At(b, bd, p).d
  {
    var path := [p] + rest;
    assert path[1..] == rest;
    forall i | 0 <= i < |path| - 1 ensures In(b, path[i]) && path[i+1] == Next(path[i], At(b, field, path[i])) {
      if i > 0 {
        assert path[i] == rest[i-1] && path[i+1] == rest[i];
      }
    }
  }

  lemma FinishIsLeast(b: Board, p: Pos, d: Dist)
    requires In(b, p) && IsLeast(b, p, d)
    ensures d.Fin? ==> d.d >= 0.0
    ensures FinishAt(b, p) ==> d == Fin(0.0)
  {
    if FinishAt(b, p) {
      assert LegalPath(b, [p]) && PathCost(b, [p]) == 0.0;
    }
  }

  /** From any reached tile the field leads to a finish, along a path as cheap as any. */
  lemma {:induction false} WalkReachesFinish(b: Board, field: seq<int>, bd: seq<Dist>, p: Pos) returns (path: seq<Pos>)
    requires |field| == |bd| == b.w * b.h && Guides(b, field, bd)
    requires forall q | In(b, q) :: IsLeast(b, q, At(b, bd, q))
    requires In(b, p) && At(b, bd, p).Fin?
    ensures LegalPath(b, path) && path[0] == p && Follows(b, field, path)
    ensures PathCost(b, path) == At(b, bd, p).d
    decreases At(b, bd, p).d.Floor + 1
  {
    FinishIsLeast(b, p, At(b, bd, p));
    if FinishAt(b, p) {
      path := [p];
    } else {
      assert Guided(b, field, bd, p);
      var n := Next(p, At(b, field, p));
      FinishIsLeast(b, n, At(b, bd, n));
      var rest := WalkReachesFinish(b, field, bd, n);
      PrependWalk(b, field, bd, p, rest);
      path := [p] + rest;
    }
  }

  // ----- The field by tile numbers ---------------------------------------------------------------

  /** The entry for column `x` of row `y`. */
  function Number<T>(b: Board, s: seq<T>, x: int, y: int): T
    requires |s| == b.w * b.h && 0 <= x < b.w && 0 <= y < b.h
  {
    s[Flat(b.w, b.h, x, y)]
  }

  /** Solid, unhookable and freeze tiles. */
  predicate Blocks(t: int) {
    t == 1 || t == 3 || t == 9
  }

  predicate BlocksAt(b: Board, x: int, y: int)
    requires 0 <= x < b.w && 0 <= y < b.h
  {
    Blocks(Number(b, b.tiles, x, y))
  }

  /** The way to the neighbour at offset (dx, dy) is open: it does not block and, on a diagonal, nor
      does either of the two tiles beside the way. */
  predicate Open(b: Board, x: int, y: int, dx: int, dy: int)
    requires 0 <= x < b.w && 0 <= y < b.h
  {
    && -1 <= dx <= 1 && -1 <= dy <= 1 && (dx != 0 || dy != 0)
    && 0 <= x + dx < b.w && 0 <= y + dy < b.h && !BlocksAt(b, x + dx, y + dy)
    && (dx != 0 && dy != 0 ==> !BlocksAt(b, x + dx, y) && !BlocksAt(b, x, y + dy))
  }

  function Toll(b: Board, dx: int, dy: int): real {
    if dx != 0 && dy != 0 then b.diag else 1.0
  }

  /** What the search leaves for one tile, in terms of the numbers in the map alone. */
  ghost predicate TileByNumbers(b: Board, field: seq<int>, bd: seq<Dist>, x: int, y: int)
    requires |field| == |bd| == b.w * b.h && 0 <= x < b.w && 0 <= y < b.h
  {
    var t, v, d := Number(b, b.tiles, x, y), Number(b, field, x, y), Number(b, bd, x, y);
    // Tiles that block are never reached, and nothing leads from them or from where no way is known.
    && (Blocks(t) ==> d == Inf)
    && (d == Inf || t == 34 ==> v == 4)
    && (t == 34 ==> d == Fin(0.0))
    // Every open way is taken into account, ...
    && (forall dx, dy | Open(b, x, y, dx, dy) && !Blocks(t) && Number(b, bd, x + dx, y + dy).Fin? ::
          d.Fin? && d.d <= Number(b, bd, x + dx, y + dy).d + Toll(b, dx, dy))
    // ... and the field leads along one, as cheaply as the distance says.
    && (d.Fin? && t != 34 ==>
          var dx, dy := v % 3 - 1, v / 3 - 1;
          Open(b, x, y, dx, dy) && Number(b, bd, x + dx, y + dy) == Fin(d.d - Toll(b, dx, dy)))
  }

  ghost predicate ByNumbers(b: Board, field: seq<int>, bd: seq<Dist>)
    requires |field| == |bd| == b.w * b.h
  {
    forall x, y | 0 <= x < b.w && 0 <= y < b.h :: TileByNumbers(b, field, bd, x, y)
  }

  lemma OpenIsStep(b: Board, x: int, y: int, dx: int, dy: int)
    requires 0 <= x < b.w && 0 <= y < b.h
    ensures Open(b, x, y, dx, dy) && !BlocksAt(b, x, y) ==> Step(b, Pos(x, y), Pos(x + dx, y + dy))
    ensures Step(b, Pos(x, y), Pos(x + dx, y + dy)) ==> Open(b, x, y, dx, dy) && !BlocksAt(b, x, y)
    ensures Toll(b, dx, dy) == StepCost(b, Pos(x, y), Pos(x + dx, y + dy))
  {
  }

  /** An open way to a tile with a known distance bounds the distance here. */
  lemma OpenBounds(b: Board, bd: seq<Dist>, x: int, y: int, dx: int, dy: int)
    requires |bd| == b.w * b.h && 0 <= x < b.w && 0 <= y < b.h
    requires forall p | In(b, p) :: IsLeast(b, p, At(b, bd, p))
    requires Open(b, x, y, dx, dy) && !BlocksAt(b, x, y) && Number(b, bd, x + dx, y + dy).Fin?
    ensures
      var d := Number(b, bd, x, y);
      d.Fin? && d.d <= Number(b, bd, x + dx, y + dy).d + Toll(b, dx, dy)
  {
    OpenIsStep(b, x, y, dx, dy);
    OpenIsIn(b, x, y, dx, dy);
    StepBounds(b, bd, Pos(x, y), Pos(x + dx, y + dy));
    hide Open, BlocksAt, Step, Toll, StepCost, IsLeast;
  }

  lemma AllOpenBound(b: Board, bd: seq<Dist>, x: int, y: int)
    requires |bd| == b.w * b.h && 0 <= x < b.w && 0 <= y < b.h
    requires forall p | In(b, p) :: IsLeast(b, p, At(b, bd, p))
    ensures
      forall dx, dy | Open(b, x, y, dx, dy) && !BlocksAt(b, x, y) && Number(b, bd, x + dx, y + dy).Fin? ::
        var d := Number(b, bd, x, y);
        d.Fin? && d.d <= Number(b, bd, x + dx, y + dy).d + Toll(b, dx, dy)
  {
    hide IsLeast, Toll, Number;
    forall dx, dy | Open(b, x, y, dx, dy) && !BlocksAt(b, x, y) && Number(b, bd, x + dx, y + dy).Fin?
      ensures Number(b, bd, x, y).Fin?
      ensures Number(b, bd, x, y).d <= Number(b, bd, x + dx, y + dy).d + Toll(b, dx, dy)
    {
      OpenBounds(b, bd, x, y, dx, dy);
    }
  }

  lemma OpenIsIn(b: Board, x: int, y: int, dx: int, dy: int)
    requires 0 <= x < b.w && 0 <= y < b.h && Open(b, x, y, dx, dy)
    ensures 0 <= x + dx < b.w && 0 <= y + dy < b.h
  {
  }

  lemma StepBounds(b: Board, bd: seq<Dist>, p: Pos, q: Pos)
    requires |bd| == b.w * b.h && Step(b, p, q) && In(b, p) && In(b, q)
    requires IsLeast(b, p, At(b, bd, p)) && IsLeast(b, q, At(b, bd, q)) && At(b, bd, q).Fin?
    ensures At(b, bd, p).Fin? && At(b, bd, p).d <= At(b, bd, q).d + StepCost(b, p, q)
  {
    AttainsBy(b, p, q, At(b, bd, q).d);
    hide Step, StepCost, At;
  }

  lemma AttainedIsFree(b: Board, x: int, y: int, c: real)
    requires 0 <= x < b.w && 0 <= y < b.h && Attains(b, Pos(x, y), c)
    ensures !BlocksAt(b, x, y)
  {
    var path :| LegalPath(b, path) && path[0] == Pos(x, y) && PathCost(b, path) == c;
  }

  lemma BlockedIsUnreached(b: Board, bd: seq<Dist>, x: int, y: int)
    requires |bd| == b.w * b.h && 0 <= x < b.w && 0 <= y < b.h
    requires IsLeast(b, Pos(x, y), At(b, bd, Pos(x, y))) && BlocksAt(b, x, y)
    ensures Number(b, bd, x, y) == Inf
  {
    hide Attains, BlocksAt;
    if Number(b, bd, x, y).Fin? {
      AttainedIsFree(b, x, y, Number(b, bd, x, y).d);
    }
  }

  /** The field leads along an open way, as cheaply as the distance says. */
  lemma LeadsOpen(b: Board, field: seq<int>, bd: seq<Dist>, x: int, y: int)
    requires |field| == |bd| == b.w * b.h && 0 <= x < b.w && 0 <= y < b.h
    requires Guided(b, field, bd, Pos(x, y))
    ensures
      var v, d := Number(b, field, x, y), Number(b, bd, x, y);
      var dx, dy := v % 3 - 1, v / 3 - 1;
      if d.Fin? && Number(b, b.tiles, x, y) != 34 then
        Open(b, x, y, dx, dy) && Number(b, bd, x + dx, y + dy) == Fin(d.d - Toll(b, dx, dy))
      else v == 4
  {
    var v := Number(b, field, x, y);
    OpenIsStep(b, x, y, v % 3 - 1, v / 3 - 1);
    OpenBorders(b, x, y, v % 3 - 1, v / 3 - 1);
    hide Open, Step, Toll, StepCost;
  }

  lemma OpenBorders(b: Board, x: int, y: int, dx: int, dy: int)
    requires 0 <= x < b.w && 0 <= y < b.h
    ensures Open(b, x, y, dx, dy) ==> 0 <= x + dx < b.w && 0 <= y + dy < b.h
  {
  }

  lemma ByNumbersHolds(b: Board, field: seq<int>, bd: seq<Dist>)
    requires |field| == |bd| == b.w * b.h && Guides(b, field, bd)
    requires forall p | In(b, p) :: IsLeast(b, p, At(b, bd, p))
    ensures ByNumbers(b, field, bd)
  {
    hide IsLeast, Open, Toll, Number;
    forall x, y | 0 <= x < b.w && 0 <= y < b.h ensures TileByNumbers(b, field, bd, x, y) {
      StartOrBlocked(b, bd, x, y);
      assert Guided(b, field, bd, Pos(x, y));
      LeadsOpen(b, field, bd, x, y);
      AllOpenBound(b, bd, x, y);
    }
  }

  lemma StartOrBlocked(b: Board, bd: seq<Dist>, x: int, y: int)
    requires |bd| == b.w * b.h && 0 <= x < b.w && 0 <= y < b.h
    requires forall p | In(b, p) :: IsLeast(b, p, At(b, bd, p))
    ensures BlocksAt(b, x, y) ==> Number(b, bd, x, y) == Inf
    ensures Number(b, b.tiles, x, y) == 34 ==> Number(b, bd, x, y) == Fin(0.0)
  {
    var p := Pos(x, y);
    assert In(b, p) && IsLeast(b, p, At(b, bd, p));
    FinishIsLeast(b, p, At(b, bd, p));
    if BlocksAt(b, x, y) {
      BlockedIsUnreached(b, bd, x, y);
    }
    hide IsLeast;
  }

  // ----- How often the work list is popped ---------------------------------------------------

  ghost function Finishes(b: Board): set<Pos> {
    set p | p in Cells(b.w, b.h) && FinishAt(b, p)
  }

  lemma DoneIsBounded(b: Board, done: set<Pos>)
    requires forall p | p in done :: In(b, p)
    ensures |done| <= b.w * b.h
  {
    forall p | p in done ensures p in Cells(b.w, b.h) {
      assert p == Pos(p.x, p.y);
    }
    CellsBound(b.w, b.h, done);
  }

  /** The state after the first columns up to `x` and the tiles of column `x` above `y` are cleared. */
  ghost predicate Started(b: Board, bd: seq<Dist>, field: seq<int>, wl: seq<Entry>, seen: set<Pos>, x: int, y: int) {
    && |bd| == |field| == b.w * b.h
    && Sorted(wl) && |wl| == |seen|
    && (forall p | p in seen :: In(b, p) && FinishAt(b, p) && (p.x < x || (p.x == x && p.y < y)))
    && (forall e | e in wl :: e.d == 0.0 && e.p in seen)
    && (forall p | In(b, p) && (p.x < x || (p.x == x && p.y < y)) ::
          && At(b, field, p) == 4
          && At(b, bd, p) == (if FinishAt(b, p) then Fin(0.0) else Inf)
          && (FinishAt(b, p) ==> p in seen && Entry(0.0, p) in wl))
  }

  lemma StartTileFacts(b: Board, bd: seq<Dist>, field: seq<int>, wl: seq<Entry>, seen: set<Pos>, p: Pos,
      bd': seq<Dist>, field': seq<int>, wl': seq<Entry>, seen': set<Pos>)
    requires In(b, p) && Started(b, bd, field, wl, seen, p.x, p.y)
    requires |bd'| == |field'| == b.w * b.h && Sorted(wl') && |wl'| == |seen'|
    requires forall o :: In(b, o) ==> At(b, field', o) == if o == p then 4 else At(b, field, o)
    requires forall o :: In(b, o) ==>
      At(b, bd', o) == if o == p then (if FinishAt(b, p) then Fin(0.0) else Inf) else At(b, bd, o)
    requires seen' == if FinishAt(b, p) then seen + {p} else seen
    requires forall e :: e in wl' <==> e in wl || (FinishAt(b, p) && e == Entry(0.0, p))
    ensures Started(b, bd', field', wl', seen', p.x, p.y + 1)
  {
  }

  lemma StartTile(b: Board, bd: seq<Dist>, field: seq<int>, wl: seq<Entry>, seen: set<Pos>, p: Pos)
    requires In(b, p) && Started(b, bd, field, wl, seen, p.x, p.y)
    ensures
      var i := Idx(b, p);
      if FinishAt(b, p) then
        Started(b, bd[i := Fin(0.0)], field[i := 4], Insert(wl, Entry(0.0, p)), seen + {p}, p.x, p.y + 1)
      else
        Started(b, bd[i := Inf], field[i := 4], wl, seen, p.x, p.y + 1)
  {
    var i := Idx(b, p);
    AtUpdate(b, field, p, 4);
    if FinishAt(b, p) {
      AtUpdate(b, bd, p, Fin(0.0));
      InsertIn(wl, Entry(0.0, p));
      assert p !in seen;
      StartTileFacts(b, bd, field, wl, seen, p, bd[i := Fin(0.0)], field[i := 4], Insert(wl, Entry(0.0, p)), seen + {p});
    } else {
      AtUpdate(b, bd, p, Inf);
      StartTileFacts(b, bd, field, wl, seen, p, bd[i := Inf], field[i := 4], wl, seen);
    }
  }

  lemma StartedAll(b: Board, bd: seq<Dist>, field: seq<int>, wl: seq<Entry>, seen: set<Pos>)
    requires Started(b, bd, field, wl, seen, b.w, 0)
    ensures Partial(b, bd, field, wl, {}) && |wl| == |Finishes(b)|
  {
    assert seen == Finishes(b);
    forall p | In(b, p) && FinishAt(b, p) ensures Attains(b, p, 0.0) {
      assert LegalPath(b, [p]) && PathCost(b, [p]) == 0.0;
    }
    forall p | In(b, p) ensures Guided(b, field, bd, p) {
    }
  }

  // ----- One expansion -------------------------------------------------------------------------

  function Shift(p: Pos, dx: int, dy: int): Pos {
    Pos(p.x + dx, p.y + dy)
  }

  /** The state while the neighbours of `cur` are visited; those before offset (dx, dy) have been.
      A stale entry is one whose tile was expanded before. */
  ghost predicate Expanding(b: Board, bd: seq<Dist>, field: seq<int>, wl: seq<Entry>, done: set<Pos>,
      cur: Entry, stale: bool, dx: int, dy: int)
  {
    && Partial(b, bd, field, wl, done)
    && |wl| > 0 && wl[0] == cur && cur.p in done && In(b, cur.p)
    && AllRelaxed(b, bd, done - {cur.p})
    && (if stale then forall q :: Relaxed(b, bd, cur.p, q) else At(b, bd, cur.p) == Fin(cur.d))
    && (forall ox, oy | -1 <= ox <= 1 && -1 <= oy <= 1 && (ox < dx || (ox == dx && oy < dy)) ::
          Relaxed(b, bd, cur.p, Shift(cur.p, ox, oy)))
  }

  lemma ExpandSkip(b: Board, bd: seq<Dist>, field: seq<int>, wl: seq<Entry>, done: set<Pos>,
      cur: Entry, stale: bool, dx: int, dy: int)
    requires Expanding(b, bd, field, wl, done, cur, stale, dx, dy)
    requires
      var q := Shift(cur.p, dx, dy);
      Step(b, q, cur.p) ==> At(b, bd, q).Fin? && At(b, bd, q).d <= cur.d + StepCost(b, q, cur.p)
    ensures Expanding(b, bd, field, wl, done, cur, stale, dx, dy + 1)
  {
    assert Relaxed(b, bd, cur.p, Shift(cur.p, dx, dy));
  }

  /** Only a tile that is expanded for the first time can improve a neighbour. */
  lemma NotStale(b: Board, bd: seq<Dist>, field: seq<int>, wl: seq<Entry>, done: set<Pos>,
      cur: Entry, stale: bool, dx: int, dy: int, q: Pos)
    requires Expanding(b, bd, field, wl, done, cur, stale, dx, dy)
    requires Step(b, q, cur.p) && (At(b, bd, q).Fin? ==> At(b, bd, q).d > cur.d + StepCost(b, q, cur.p))
    ensures !stale && q !in done && cur in wl
  {
    assert cur in wl;
    assert At(b, bd, cur.p).d <= cur.d;
    assert stale ==> Relaxed(b, bd, cur.p, q);
    assert forall p | p in done :: In(b, p) && At(b, bd, p).Fin? && At(b, bd, p).d <= cur.d;
  }

  lemma ExpandRelaxed(b: Board, bd: seq<Dist>, wl: seq<Entry>, done: set<Pos>, cur: Entry, dx: int, dy: int, e: Entry,
      bd': seq<Dist>, wl': seq<Entry>)
    requires |bd| == |bd'| == b.w * b.h && Improved(b, bd, wl, e, bd', wl')
    requires e.p !in done && cur.p in done && In(b, cur.p) && e.p == Shift(cur.p, dx, dy)
    requires At(b, bd, e.p).Fin? ==> At(b, bd, e.p).d > e.d
    requires At(b, bd, cur.p) == Fin(cur.d) && e.d == cur.d + StepCost(b, e.p, cur.p)
    requires AllRelaxed(b, bd, done - {cur.p})
    requires forall ox, oy | -1 <= ox <= 1 && -1 <= oy <= 1 && (ox < dx || (ox == dx && oy < dy)) ::
      Relaxed(b, bd, cur.p, Shift(cur.p, ox, oy))
    ensures AllRelaxed(b, bd', done - {cur.p})
    ensures forall ox, oy | -1 <= ox <= 1 && -1 <= oy <= 1 && (ox < dx || (ox == dx && oy < dy + 1)) ::
      Relaxed(b, bd', cur.p, Shift(cur.p, ox, oy))
  {
    forall p, o | p in done && In(b, p) && Relaxed(b, bd, p, o) ensures Relaxed(b, bd', p, o) {
      ImproveRelaxed(b, bd, wl, e, bd', wl', p, o);
    }
    assert Relaxed(b, bd', cur.p, e.p);
  }

  lemma ExpandImprove(b: Board, bd: seq<Dist>, field: seq<int>, wl: seq<Entry>, done: set<Pos>,
      cur: Entry, stale: bool, dx: int, dy: int, e: Entry)
    requires Expanding(b, bd, field, wl, done, cur, stale, dx, dy)
    requires -1 <= dx <= 1 && -1 <= dy <= 1 && e.p == Shift(cur.p, dx, dy)
    requires Step(b, e.p, cur.p) && e.d == cur.d + StepCost(b, e.p, cur.p)
    requires At(b, bd, e.p).Fin? ==> At(b, bd, e.p).d > e.d
    ensures !stale
    ensures Expanding(b, bd[Idx(b, e.p) := Fin(e.d)], field[Idx(b, e.p) := Pack(dx, dy)], Insert(wl, e),
      done, cur, stale, dx, dy + 1)
  {
    NotStale(b, bd, field, wl, done, cur, stale, dx, dy, e.p);
    PackNext(cur.p, dx, dy);
    var bd', field', wl' := bd[Idx(b, e.p) := Fin(e.d)], field[Idx(b, e.p) := Pack(dx, dy)], Insert(wl, e);
    Improve(b, bd, field, wl, done, e, Pack(dx, dy), bd', field', wl');
    ExpandRelaxed(b, bd, wl, done, cur, dx, dy, e, bd', wl');
  }

  lemma ExpandedIsFree(b: Board, bd: seq<Dist>, field: seq<int>, wl: seq<Entry>, done: set<Pos>, p: Pos)
    requires Partial(b, bd, field, wl, done) && p in done
    ensures In(b, p) && !SolidAt(b, p)
  {
  }

  lemma ExpandColumn(b: Board, bd: seq<Dist>, field: seq<int>, wl: seq<Entry>, done: set<Pos>,
      cur: Entry, stale: bool, dx: int)
    requires Expanding(b, bd, field, wl, done, cur, stale, dx, 2)
    ensures Expanding(b, bd, field, wl, done, cur, stale, dx + 1, -1)
  {
  }

  lemma ExpandAll(b: Board, bd: seq<Dist>, field: seq<int>, wl: seq<Entry>, done: set<Pos>, cur: Entry, stale: bool)
    requires Expanding(b, bd, field, wl, done, cur, stale, 2, -1)
    ensures AllRelaxed(b, bd, done)
  {
    forall q ensures Relaxed(b, bd, cur.p, q) {
      if Step(b, q, cur.p) {
        assert q == Shift(cur.p, q.x - cur.p.x, q.y - cur.p.y);
      }
    }
    forall p, q | p in done && In(b, p) ensures Relaxed(b, bd, p, q) {
      if p != cur.p {
        assert p in done - {cur.p};
      }
    }
  }

  lemma ExpandStart(b: Board, bd: seq<Dist>, field: seq<int>, wl: seq<Entry>, done: set<Pos>)
    requires Partial(b, bd, field, wl, done) && AllRelaxed(b, bd, done) && |wl| > 0
    ensures
      var cur := wl[0];
      Expanding(b, bd, field, wl, done + {cur.p}, cur, cur.p in done, -1, -1)
  {
    var cur := wl[0];
    assert cur in wl;
    if cur.p in done {
      assert done + {cur.p} == done;
      forall q ensures Relaxed(b, bd, cur.p, q) {
      }
    } else {
      Begin(b, bd, field, wl, done);
      assert done + {cur.p} - {cur.p} == done;
    }
  }

  /** Taking the expanded entry off the work list. */
  lemma Erase(b: Board, bd: seq<Dist>, field: seq<int>, wl: seq<Entry>, done: set<Pos>)
    requires Partial(b, bd, field, wl, done) && |wl| > 0 && wl[0].p in done
    ensures Partial(b, bd, field, wl[1..], done)
  {
    hide Guides, PointsToDone, Sound, FinishesOk, At;
    assert wl == [wl[0]] + wl[1..];
    forall e | e in wl && e != wl[0] ensures e in wl[1..] {
    }
  }

  lemma ExpandBegins(b: Board, s: Snapshot, done: set<Pos>)
    requires Partial(b, s.bd, s.field, s.wl, done) && AllRelaxed(b, s.bd, done) && |s.wl| > 0
    ensures
      var cur := s.wl[0];
      && Expanding(b, s.bd, s.field, s.wl, done + {cur.p}, cur, cur.p in done, -1, -1)
      && Spreads(b, s, cur, -1, -1, s)
  {
    ExpandStart(b, s.bd, s.field, s.wl, done);
    SpreadNone(b, s, s.wl[0]);
    hide Expanding, Spreads;
  }

  lemma ExpandEnd(b: Board, bd: seq<Dist>, field: seq<int>, wl: seq<Entry>, done: set<Pos>, cur: Entry, stale: bool)
    requires Expanding(b, bd, field, wl, done, cur, stale, 2, -1)
    ensures wl != [] && wl[0] == cur && Sorted(wl)
    ensures Partial(b, bd, field, wl[1..], done) && AllRelaxed(b, bd, done)
  {
    ExpandAll(b, bd, field, wl, done, cur, stale);
    Erase(b, bd, field, wl, done);
    hide Partial;
  }

  lemma TakeFirst(b: Board, s: Snapshot, bd: seq<Dist>, field: seq<int>, wl: seq<Entry>)
    requires |wl| > 0 && Sorted(wl)
    requires s.wl != [] && wl[0] == s.wl[0] && Spreads(b, s, wl[0], 2, -1, Snapshot(bd, field, wl))
    ensures Expands(b, s, Snapshot(bd, field, wl[1..]))
    ensures forall e :: e in wl[1..] ==> wl[0].d <= e.d
  {
    hide Spreads;
    assert [wl[0]] + wl[1..] == wl;
    assert Snapshot(bd, field, wl[1..]).(wl := wl) == Snapshot(bd, field, wl);
  }

  lemma DoneGrows(b: Board, bd: seq<Dist>, field: seq<int>, wl: seq<Entry>, done: set<Pos>, p: Pos)
    requires Partial(b, bd, field, wl, done + {p})
    ensures |done + {p}| == (if p in done then |done| else |done| + 1) <= b.w * b.h
  {
    DoneIsBounded(b, done + {p});
    if p in done {
      assert done + {p} == done;
    }
  }

  // ----- What one expansion does to the distances, the field and the work list -----------------

  datatype Snapshot = Snapshot(bd: seq<Dist>, field: seq<int>, wl: seq<Entry>)

  predicate Shaped(b: Board, s: Snapshot) {
    |s.bd| == |s.field| == b.w * b.h && Sorted(s.wl)
  }

  /** Tile `q` is reached more cheaply by a step to the tile of `cur` than in any way known so far. */
  predicate Improves(b: Board, bd: seq<Dist>, cur: Entry, q: Pos)
    requires |bd| == b.w * b.h
  {
    Step(b, q, cur.p) && (At(b, bd, q).Fin? ==> At(b, bd, q).d > cur.d + StepCost(b, q, cur.p))
  }

  /** Tile `q` comes before offset (dx, dy) when the neighbours of `p` are visited. */
  predicate Early(p: Pos, q: Pos, dx: int, dy: int) {
    q.x - p.x < dx || (q.x - p.x == dx && q.y - p.y < dy)
  }

  function Reached(b: Board, cur: Entry, q: Pos): Entry {
    Entry(cur.d + StepCost(b, q, cur.p), q)
  }

  ghost function NewEntries(b: Board, bd: seq<Dist>, cur: Entry, dx: int, dy: int): set<Entry>
    requires |bd| == b.w * b.h
  {
    set q | q in Cells(b.w, b.h) && Early(cur.p, q, dx, dy) && Improves(b, bd, cur, q) :: Reached(b, cur, q)
  }

  /** `s'` is `s` with the neighbours of `cur` before offset (dx, dy) visited: those that it improves
      have their new distance, point to its tile and wait in the list; nothing else has changed. */
  ghost predicate Spreads(b: Board, s: Snapshot, cur: Entry, dx: int, dy: int, s': Snapshot) {
    && Shaped(b, s) && Shaped(b, s') && TilesSpread(b, s, cur, dx, dy, s')
    && multiset(s'.wl) == multiset(s.wl) + multiset(NewEntries(b, s.bd, cur, dx, dy))
  }

  ghost predicate TilesSpread(b: Board, s: Snapshot, cur: Entry, dx: int, dy: int, s': Snapshot)
    requires Shaped(b, s) && Shaped(b, s')
  {
    forall q | In(b, q) ::
      if Early(cur.p, q, dx, dy) && Improves(b, s.bd, cur, q) then
        && At(b, s'.bd, q) == Fin(Reached(b, cur, q).d)
        && At(b, s'.field, q) == Pack(q.x - cur.p.x, q.y - cur.p.y)
      else At(b, s'.bd, q) == At(b, s.bd, q) && At(b, s'.field, q) == At(b, s.field, q)
  }

  /** `s'` is `s` with its first entry expanded: all its neighbours visited, and then the entry gone. */
  ghost predicate Expands(b: Board, s: Snapshot, s': Snapshot) {
    s.wl != [] && Spreads(b, s, s.wl[0], 2, -1, s'.(wl := [s.wl[0]] + s'.wl))
  }

  /** The state before the first expansion: each finish waits once, at distance 0. */
  ghost predicate Initial(b: Board, s: Snapshot) {
    && Shaped(b, s) && |s.wl| == |Finishes(b)|
    && (forall p | In(b, p) ::
          At(b, s.field, p) == 4 && At(b, s.bd, p) == if FinishAt(b, p) then Fin(0.0) else Inf)
    && forall e: Entry :: e in s.wl <==> e.d == 0.0 && In(b, e.p) && FinishAt(b, e.p)
  }

  lemma StartedInitial(b: Board, bd: seq<Dist>, field: seq<int>, wl: seq<Entry>, seen: set<Pos>)
    requires Started(b, bd, field, wl, seen, b.w, 0)
    ensures Initial(b, Snapshot(bd, field, wl))
  {
    assert seen == Finishes(b) by {
      forall p ensures p in seen <==> p in Finishes(b) {
        InCells(b, p);
      }
    }
    forall e: Entry | e.d == 0.0 && In(b, e.p) && FinishAt(b, e.p) ensures e in wl {
      assert e == Entry(0.0, e.p);
    }
  }

  /** A whole search: every state comes from the one before by expanding its first entry. */
  ghost predicate SearchRun(b: Board, run: seq<Snapshot>) {
    Steps(b, run) && run[|run| - 1].wl == []
  }

  ghost predicate Steps(b: Board, run: seq<Snapshot>) {
    |run| > 0 && forall i | 0 <= i < |run| - 1 :: run[i].wl != [] && Expands(b, run[i], run[i + 1])
  }

  /** The entries that a search takes, in order. */
  function Pops(run: seq<Snapshot>): (pops: seq<Entry>)
    requires forall i | 0 <= i < |run| - 1 :: run[i].wl != []
    ensures |pops| == if |run| > 0 then |run| - 1 else 0
    ensures forall i | 0 <= i < |pops| :: pops[i] == run[i].wl[0]
  {
    seq(if |run| > 0 then |run| - 1 else 0, i requires 0 <= i < |run| - 1 => run[i].wl[0])
  }

  lemma SpreadNone(b: Board, s: Snapshot, cur: Entry)
    requires Shaped(b, s)
    ensures Spreads(b, s, cur, -1, -1, s)
  {
    assert NewEntries(b, s.bd, cur, -1, -1) == {};
  }

  lemma InCells(b: Board, q: Pos)
    ensures q in Cells(b.w, b.h) <==> In(b, q)
  {
    assert q == Pos(q.x, q.y);
  }

  lemma SpreadSkip(b: Board, s: Snapshot, cur: Entry, dx: int, dy: int, s': Snapshot)
    requires Spreads(b, s, cur, dx, dy, s')
    requires !Improves(b, s'.bd, cur, Shift(cur.p, dx, dy))
    ensures Spreads(b, s, cur, dx, dy + 1, s')
  {
    SameOrLater(b, s, cur, dx, dy, s');
    assert NewEntries(b, s.bd, cur, dx, dy + 1) == NewEntries(b, s.bd, cur, dx, dy);
  }

  /** `s'` is `s` with the neighbour of `cur` at offset (dx, dy) visited. */
  ghost predicate Visits(b: Board, s: Snapshot, cur: Entry, dx: int, dy: int, s': Snapshot) {
    var q := Shift(cur.p, dx, dy);
    Shaped(b, s) &&
    if Improves(b, s.bd, cur, q) then
      && s'.bd == s.bd[Idx(b, q) := Fin(Reached(b, cur, q).d)]
      && s'.field == s.field[Idx(b, q) := Pack(dx, dy)]
      && s'.wl == Insert(s.wl, Reached(b, cur, q))
    else s' == s
  }

  lemma SpreadVisit(b: Board, s: Snapshot, cur: Entry, dx: int, dy: int, s': Snapshot, s'': Snapshot)
    requires Spreads(b, s, cur, dx, dy, s') && Visits(b, s', cur, dx, dy, s'')
    ensures Spreads(b, s, cur, dx, dy + 1, s'')
  {
    hide Spreads, Reached, Pack;
    if Improves(b, s'.bd, cur, Shift(cur.p, dx, dy)) {
      SpreadImprove(b, s, cur, dx, dy, s', s'');
    } else {
      SpreadSkip(b, s, cur, dx, dy, s');
    }
  }

  lemma ExpandingShaped(b: Board, bd: seq<Dist>, field: seq<int>, wl: seq<Entry>, done: set<Pos>,
      cur: Entry, stale: bool, dx: int, dy: int)
    requires Expanding(b, bd, field, wl, done, cur, stale, dx, dy)
    ensures |bd| == |field| == b.w * b.h && Sorted(wl) && In(b, cur.p) && !SolidAt(b, cur.p)
  {
    ExpandedIsFree(b, bd, field, wl, done, cur.p);
  }

  lemma VisitSkips(b: Board, s: Snapshot, done: set<Pos>, cur: Entry, stale: bool, dx: int, dy: int)
    requires Expanding(b, s.bd, s.field, s.wl, done, cur, stale, dx, dy)
    requires !Improves(b, s.bd, cur, Shift(cur.p, dx, dy))
    ensures Expanding(b, s.bd, s.field, s.wl, done, cur, stale, dx, dy + 1) && Visits(b, s, cur, dx, dy, s)
  {
    ExpandSkip(b, s.bd, s.field, s.wl, done, cur, stale, dx, dy);
  }

  lemma VisitImproves(b: Board, s: Snapshot, done: set<Pos>, cur: Entry, stale: bool, dx: int, dy: int, s': Snapshot)
    requires Expanding(b, s.bd, s.field, s.wl, done, cur, stale, dx, dy)
    requires -1 <= dx <= 1 && -1 <= dy <= 1
    requires Improves(b, s.bd, cur, Shift(cur.p, dx, dy))
    requires
      var q := Shift(cur.p, dx, dy);
      && s'.bd == s.bd[Idx(b, q) := Fin(Reached(b, cur, q).d)]
      && s'.field == s.field[Idx(b, q) := Pack(dx, dy)]
      && s'.wl == Insert(s.wl, Reached(b, cur, q))
    ensures !stale && Expanding(b, s'.bd, s'.field, s'.wl, done, cur, stale, dx, dy + 1) && Visits(b, s, cur, dx, dy, s')
  {
    ExpandingShaped(b, s.bd, s.field, s.wl, done, cur, stale, dx, dy);
    ExpandImprove(b, s.bd, s.field, s.wl, done, cur, stale, dx, dy, Reached(b, cur, Shift(cur.p, dx, dy)));
    hide Expanding;
  }

  /** Visiting the earlier neighbours has not changed whether the next one is improved. */
  lemma SameOrLater(b: Board, s: Snapshot, cur: Entry, dx: int, dy: int, s': Snapshot)
    requires Spreads(b, s, cur, dx, dy, s')
    ensures Improves(b, s'.bd, cur, Shift(cur.p, dx, dy)) == Improves(b, s.bd, cur, Shift(cur.p, dx, dy))
    ensures forall q | Early(cur.p, q, dx, dy + 1) :: Early(cur.p, q, dx, dy) || q == Shift(cur.p, dx, dy)
  {
  }

  lemma NewEntriesGrow(b: Board, bd: seq<Dist>, cur: Entry, dx: int, dy: int)
    requires |bd| == b.w * b.h && Improves(b, bd, cur, Shift(cur.p, dx, dy))
    ensures multiset(NewEntries(b, bd, cur, dx, dy + 1)) ==
      multiset(NewEntries(b, bd, cur, dx, dy)) + multiset{Reached(b, cur, Shift(cur.p, dx, dy))}
  {
    hide Improves, StepCost;
    var q := Shift(cur.p, dx, dy);
    var old', new' := NewEntries(b, bd, cur, dx, dy), NewEntries(b, bd, cur, dx, dy + 1);
    assert q in Cells(b.w, b.h) by {
      InCells(b, q);
      ImprovesIn(b, bd, cur, q);
    }
    assert forall o | Early(cur.p, o, dx, dy + 1) :: Early(cur.p, o, dx, dy) || o == q;
    assert Reached(b, cur, q) !in old';
    assert new' == old' + {Reached(b, cur, q)};
  }

  lemma ImprovesIn(b: Board, bd: seq<Dist>, cur: Entry, q: Pos)
    requires |bd| == b.w * b.h && Improves(b, bd, cur, q)
    ensures In(b, q)
  {
  }

  lemma SpreadImprove(b: Board, s: Snapshot, cur: Entry, dx: int, dy: int, s': Snapshot, s'': Snapshot)
    requires Spreads(b, s, cur, dx, dy, s')
    requires Improves(b, s'.bd, cur, Shift(cur.p, dx, dy))
    requires
      var q := Shift(cur.p, dx, dy);
      && s''.bd == s'.bd[Idx(b, q) := Fin(Reached(b, cur, q).d)]
      && s''.field == s'.field[Idx(b, q) := Pack(dx, dy)]
      && s''.wl == Insert(s'.wl, Reached(b, cur, q))
    ensures Spreads(b, s, cur, dx, dy + 1, s'')
  {
    var q := Shift(cur.p, dx, dy);
    SameOrLater(b, s, cur, dx, dy, s');
    ImprovesIn(b, s.bd, cur, q);
    ListSpreadOn(b, s, cur, dx, dy, s'.wl);
    hide Improves, NewEntries, Reached, Pack, Sorted, Idx, Insert, TilesSpread;
    assert Shaped(b, s'');
    TilesSpreadOn(b, s, cur, dx, dy, s', s'');
  }

  lemma ListSpreadOn(b: Board, s: Snapshot, cur: Entry, dx: int, dy: int, wl: seq<Entry>)
    requires Shaped(b, s) && Sorted(wl) && Improves(b, s.bd, cur, Shift(cur.p, dx, dy))
    requires multiset(wl) == multiset(s.wl) + multiset(NewEntries(b, s.bd, cur, dx, dy))
    ensures
      var wl' := Insert(wl, Reached(b, cur, Shift(cur.p, dx, dy)));
      multiset(wl') == multiset(s.wl) + multiset(NewEntries(b, s.bd, cur, dx, dy + 1))
  {
    NewEntriesGrow(b, s.bd, cur, dx, dy);
    hide Improves, NewEntries, Reached, Insert;
  }

  lemma TilesSpreadOn(b: Board, s: Snapshot, cur: Entry, dx: int, dy: int, s': Snapshot, s'': Snapshot)
    requires Shaped(b, s) && Shaped(b, s') && Shaped(b, s'') && TilesSpread(b, s, cur, dx, dy, s')
    requires Improves(b, s.bd, cur, Shift(cur.p, dx, dy)) && In(b, Shift(cur.p, dx, dy))
    requires
      var q := Shift(cur.p, dx, dy);
      && s''.bd == s'.bd[Idx(b, q) := Fin(Reached(b, cur, q).d)]
      && s''.field == s'.field[Idx(b, q) := Pack(dx, dy)]
    ensures TilesSpread(b, s, cur, dx, dy + 1, s'')
  {
    var q := Shift(cur.p, dx, dy);
    AtUpdate(b, s'.bd, q, Fin(Reached(b, cur, q).d));
    AtUpdate(b, s'.field, q, Pack(dx, dy));
    hide Improves, Reached, Pack, Sorted, Idx, At;
    assert forall o | Early(cur.p, o, dx, dy + 1) :: Early(cur.p, o, dx, dy) || o == q;
  }

  lemma SpreadColumn(b: Board, s: Snapshot, cur: Entry, dx: int, s': Snapshot)
    requires Spreads(b, s, cur, dx, 2, s')
    ensures Spreads(b, s, cur, dx + 1, -1, s')
  {
    forall q | Improves(b, s.bd, cur, q) ensures Early(cur.p, q, dx, 2) == Early(cur.p, q, dx + 1, -1) {
    }
    assert NewEntries(b, s.bd, cur, dx, 2) == NewEntries(b, s.bd, cur, dx + 1, -1);
  }

  /** A search so far: the entries taken were the cheapest, and none was dearer than one that waits. */
  ghost predicate Searching(b: Board, run: seq<Snapshot>) {
    && Steps(b, run)
    && Sorted(Pops(run))
    && forall i, e :: 0 <= i < |run| - 1 && e in run[|run| - 1].wl ==> Pops(run)[i].d <= e.d
  }

  lemma SearchOn(b: Board, run: seq<Snapshot>, s': Snapshot)
    requires Searching(b, run) && Expands(b, run[|run| - 1], s')
    requires forall e :: e in s'.wl ==> run[|run| - 1].wl[0].d <= e.d
    ensures Searching(b, run + [s'])
  {
    hide Expands;
    var s := run[|run| - 1];
    ExpandsOne(b, s, s');
    assert s.wl[0] in s.wl;
    assert Steps(b, run + [s']);
    assert Pops(run + [s']) == Pops(run) + [s.wl[0]];
  }

  lemma ExpandsOne(b: Board, s: Snapshot, s': Snapshot)
    requires Expands(b, s, s')
    ensures s.wl != []
  {
  }

  // ----- The program ---------------------------------------------------------------------------

  class FlowField {
    var fldw: int
    var fldh: int
    var field: array<int>

    constructor ()
    {
      fldw, fldh := 0, 0;
      field := new int[0];
    }

    /** Fills the field and the distances with their first values; the finish tiles are the work. */
    method Clear(b: Board, bd: array<Dist>) returns (wl: seq<Entry>)
      requires bd.Length == field.Length == b.w * b.h
      requires bd as object != field
      modifies bd, field
      ensures Partial(b, bd[..], field[..], wl, {})
      ensures Initial(b, Snapshot(bd[..], field[..], wl))
    {
      wl := [];
      ghost var seen: set<Pos> := {};
      for x := 0 to b.w
        invariant Started(b, bd[..], field[..], wl, seen, x, 0)
      {
        for y := 0 to b.h
          invariant Started(b, bd[..], field[..], wl, seen, x, y)
        {
          var p := Pos(x, y);
          var i := Idx(b, p);
          ghost var bd0, field0, wl0, seen0 := bd[..], field[..], wl, seen;
          field[i] := 4;
          if b.tiles[i] == TILE_FINISH {
            wl := Insert(wl, Entry(0.0, p));
            bd[i] := Fin(0.0);
            seen := seen + {p};
          } else {
            bd[i] := Inf;
          }
          StartTile(b, bd0, field0, wl0, seen0, p);
        }
      }
      StartedAll(b, bd[..], field[..], wl, seen);
      StartedInitial(b, bd[..], field[..], wl, seen);
    }

    /** Whether the neighbour of `cur` at offset (dx, dy) may step to it, and at what distance. */
    method Probe(b: Board, cur: Entry, dx: int, dy: int) returns (legal: bool, d: real)
      requires -1 <= dx <= 1 && -1 <= dy <= 1 && In(b, cur.p) && !SolidAt(b, cur.p)
      ensures legal <==> Step(b, Shift(cur.p, dx, dy), cur.p)
      ensures legal ==> d == cur.d + StepCost(b, Shift(cur.p, dx, dy), cur.p)
    {
      var q := Shift(cur.p, dx, dy);
      d := cur.d;
      if dx == 0 && dy == 0 {
        return false, d;
      }
      if q.x < 0 || q.x >= b.w || q.y < 0 || q.y >= b.h {
        return false, d;
      }
      if dx != 0 && dy != 0 {
        if SolidAt(b, Pos(q.x, cur.p.y)) || SolidAt(b, Pos(cur.p.x, q.y)) {
          return false, d;
        }
        d := d + b.diag;
      } else {
        d := d + 1.0;
      }
      legal := !SolidAt(b, q);
    }

    /** Visits the neighbour of `cur` at offset (dx, dy). */
    method Visit(b: Board, bd: array<Dist>, wl: seq<Entry>, cur: Entry, dx: int, dy: int,
        ghost done: set<Pos>, ghost stale: bool) returns (wl': seq<Entry>)
      requires bd.Length == field.Length == b.w * b.h && bd as object != field
      requires Expanding(b, bd[..], field[..], wl, done, cur, stale, dx, dy)
      requires -1 <= dx <= 1 && -1 <= dy <= 1
      modifies bd, field
      ensures Expanding(b, bd[..], field[..], wl', done, cur, stale, dx, dy + 1)
      ensures Visits(b, Snapshot(old(bd[..]), old(field[..]), wl), cur, dx, dy, Snapshot(bd[..], field[..], wl'))
      ensures |wl| <= |wl'| <= |wl| + (if dx == 0 && dy == 0 then 0 else 1)
      ensures stale ==> bd[..] == old(bd[..]) && field[..] == old(field[..]) && wl' == wl
    {
      hide Expanding, Visits;
      wl' := wl;
      var q := Shift(cur.p, dx, dy);
      ghost var s := Snapshot(bd[..], field[..], wl);
      ExpandingShaped(b, s.bd, s.field, wl, done, cur, stale, dx, dy);
      var legal, d := Probe(b, cur, dx, dy);
      if !legal || (bd[Idx(b, q)].Fin? && bd[Idx(b, q)].d <= d) {
        VisitSkips(b, s, done, cur, stale, dx, dy);
      } else {
        bd[Idx(b, q)] := Fin(d);
        field[Idx(b, q)] := Pack(dx, dy);
        wl' := Insert(wl, Entry(d, q));
        VisitImproves(b, s, done, cur, stale, dx, dy, Snapshot(bd[..], field[..], wl'));
      }
    }

    /** Visits the neighbours of `cur` in the column at offset dx. */
    method VisitColumn(b: Board, bd: array<Dist>, wl: seq<Entry>, cur: Entry, dx: int,
        ghost before: Snapshot, ghost done: set<Pos>, ghost stale: bool) returns (wl': seq<Entry>)
      requires bd.Length == field.Length == b.w * b.h && bd as object != field && -1 <= dx <= 1
      requires Expanding(b, bd[..], field[..], wl, done, cur, stale, dx, -1)
      requires Spreads(b, before, cur, dx, -1, Snapshot(bd[..], field[..], wl))
      modifies bd, field
      ensures Expanding(b, bd[..], field[..], wl', done, cur, stale, dx + 1, -1)
      ensures Spreads(b, before, cur, dx + 1, -1, Snapshot(bd[..], field[..], wl'))
      ensures |wl| <= |wl'| <= |wl| + (if dx == 0 then 2 else 3)
      ensures stale ==> bd[..] == old(bd[..]) && field[..] == old(field[..]) && wl' == wl
    {
      hide Expanding, Spreads, Visits;
      wl' := wl;
      for dy := -1 to 2
        invariant Expanding(b, bd[..], field[..], wl', done, cur, stale, dx, dy)
        invariant Spreads(b, before, cur, dx, dy, Snapshot(bd[..], field[..], wl'))
        invariant |wl| <= |wl'| <= |wl| + (dy + 1) - (if dx == 0 && dy > 0 then 1 else 0)
        invariant stale ==> bd[..] == old(bd[..]) && field[..] == old(field[..]) && wl' == wl
      {
        ghost var s := Snapshot(bd[..], field[..], wl');
        wl' := Visit(b, bd, wl', cur, dx, dy, done, stale);
        SpreadVisit(b, before, cur, dx, dy, s, Snapshot(bd[..], field[..], wl'));
      }
      ExpandColumn(b, bd[..], field[..], wl', done, cur, stale, dx);
      SpreadColumn(b, before, cur, dx, Snapshot(bd[..], field[..], wl'));
    }

    method VisitNeighbours(b: Board, bd: array<Dist>, wl: seq<Entry>, cur: Entry,
        ghost before: Snapshot, ghost done: set<Pos>, ghost stale: bool) returns (wl': seq<Entry>)
      requires bd.Length == field.Length == b.w * b.h && bd as object != field
      requires Expanding(b, bd[..], field[..], wl, done, cur, stale, -1, -1)
      requires Spreads(b, before, cur, -1, -1, Snapshot(bd[..], field[..], wl))
      modifies bd, field
      ensures Expanding(b, bd[..], field[..], wl', done, cur, stale, 2, -1)
      ensures Spreads(b, before, cur, 2, -1, Snapshot(bd[..], field[..], wl'))
      ensures |wl| <= |wl'| <= |wl| + 8
      ensures stale ==> bd[..] == old(bd[..]) && field[..] == old(field[..]) && wl' == wl
    {
      hide Expanding, Spreads;
      wl' := wl;
      for dx := -1 to 2
        invariant Expanding(b, bd[..], field[..], wl', done, cur, stale, dx, -1)
        invariant Spreads(b, before, cur, dx, -1, Snapshot(bd[..], field[..], wl'))
        invariant |wl| <= |wl'| <= |wl| + 3 * (dx + 1) - (if dx > 0 then 1 else 0)
        invariant stale ==> bd[..] == old(bd[..]) && field[..] == old(field[..]) && wl' == wl
      {
        wl' := VisitColumn(b, bd, wl', cur, dx, before, done, stale);
      }
    }

    /** Expands the first entry of the work list. A stale entry changes nothing. */
    method Expand(b: Board, bd: array<Dist>, wl: seq<Entry>, ghost done: set<Pos>) returns (wl': seq<Entry>)
      requires bd.Length == field.Length == b.w * b.h && bd as object != field
      requires Partial(b, bd[..], field[..], wl, done) && AllRelaxed(b, bd[..], done) && |wl| > 0
      modifies bd, field
      ensures Partial(b, bd[..], field[..], wl', done + {wl[0].p}) && AllRelaxed(b, bd[..], done + {wl[0].p})
      ensures |wl| <= |wl'| + 1 <= |wl| + 8 && forall e :: e in wl' ==> wl[0].d <= e.d
      ensures Expands(b, Snapshot(old(bd[..]), old(field[..]), wl), Snapshot(bd[..], field[..], wl'))
      ensures wl[0].p in done ==> bd[..] == old(bd[..]) && field[..] == old(field[..]) && wl' == wl[1..]
    {
      hide Expanding, Spreads, Expands, AllRelaxed, Partial;
      var cur := wl[0];
      ghost var before, done', stale := Snapshot(bd[..], field[..], wl), done + {cur.p}, cur.p in done;
      ExpandBegins(b, before, done);
      wl' := VisitNeighbours(b, bd, wl, cur, before, done', stale);
      ExpandEnd(b, bd[..], field[..], wl', done', cur, stale);
      TakeFirst(b, before, bd[..], field[..], wl');
      wl' := wl'[1..];
    }

    /** Expands entries until none is left; `run` lists the states. */
    method Search(b: Board, bd: array<Dist>, wl0: seq<Entry>) returns (ghost done: set<Pos>, ghost run: seq<Snapshot>)
      requires bd.Length == field.Length == b.w * b.h && bd as object != field
      requires Partial(b, bd[..], field[..], wl0, {})
      modifies bd, field
      ensures Partial(b, bd[..], field[..], [], done) && AllRelaxed(b, bd[..], done)
      ensures SearchRun(b, run)
      ensures run[0] == Snapshot(old(bd[..]), old(field[..]), wl0)
      ensures run[|run| - 1] == Snapshot(bd[..], field[..], [])
      ensures Sorted(Pops(run)) && |Pops(run)| <= 8 * (b.w * b.h) + |wl0|
    {
      assert AllRelaxed(b, bd[..], {});
      hide Expands, Partial, AllRelaxed;
      var wl := wl0;
      done := {};
      run := [Snapshot(bd[..], field[..], wl)];
      ghost var size := b.w * b.h;
      while |wl| > 0
        invariant Partial(b, bd[..], field[..], wl, done) && AllRelaxed(b, bd[..], done)
        invariant Searching(b, run) && run[|run| - 1] == Snapshot(bd[..], field[..], wl)
        invariant run[0] == Snapshot(old(bd[..]), old(field[..]), wl0)
        invariant |run| - 1 + |wl| + 8 * (size - |done|) <= 8 * size + |wl0| && |done| <= size
        decreases size - |done|, |wl|
      {
        ghost var wl1, done1 := wl, done;
        wl := Expand(b, bd, wl, done);
        SearchOn(b, run, Snapshot(bd[..], field[..], wl));
        run := run + [Snapshot(bd[..], field[..], wl)];
        done := done + {wl1[0].p};
        DoneGrows(b, bd[..], field[..], wl, done1, wl1[0].p);
      }
    }

    /** Fills the field for a map. The distances, which the program frees, and the states that the
        search has run through are handed back so that the contract can speak of them. */
    method SetupField(b: Board) returns (bd: array<Dist>, ghost run: seq<Snapshot>)
      modifies this
      ensures fresh(field) && fresh(bd) && fldw == b.w && fldh == b.h
      ensures field.Length == bd.Length == b.w * b.h
      ensures forall p | In(b, p) :: IsLeast(b, p, At(b, bd[..], p))
      ensures Guides(b, field[..], bd[..]) && ByNumbers(b, field[..], bd[..])
      ensures SearchRun(b, run) && Initial(b, run[0]) && run[|run| - 1] == Snapshot(bd[..], field[..], [])
      ensures Sorted(Pops(run)) && |Pops(run)| <= 8 * (b.w * b.h) + |Finishes(b)|
    {
      fldw, fldh := b.w, b.h;
      field := new int[b.w * b.h];
      bd := new Dist[b.w * b.h];
      var wl := Clear(b, bd);
      ghost var done;
      done, run := Search(b, bd, wl);
      forall p | In(b, p) ensures IsLeast(b, p, At(b, bd[..], p)) {
        Optimal(b, bd[..], field[..], done, p);
      }
      ByNumbersHolds(b, field[..], bd[..]);
    }

    /** The direction in which the field leads from (x, y); none outside the map. */
    function GetField(x: int, y: int): (dir: (int, int))
      requires fldw >= 0 && fldh >= 0 && field.Length == fldw * fldh
      reads this, field
    {
      if x < 0 || x >= fldw || y < 0 || y >= fldh then (0, 0)
      else
        var v := field[Flat(fldw, fldh, x, y)];
        (v % 3 - 1, v / 3 - 1)
    }
  }

  /** What the direction field tells a player at (x, y): nothing outside the map, on a finish, and
      where no finish can be reached; otherwise a legal step that lowers the distance by its cost. */
  lemma Descent(f: FlowField, b: Board, bd: seq<Dist>, x: int, y: int)
    requires f.fldw == b.w && f.fldh == b.h && f.field.Length == |bd| == b.w * b.h
    requires Guides(b, f.field[..], bd)
    ensures
      var p, dir := Pos(x, y), f.GetField(x, y);
      var n := Pos(x + dir.0, y + dir.1);
      if In(b, p) && At(b, bd, p).Fin? && !FinishAt(b, p) then
        Step(b, p, n) && At(b, bd, n).Fin? && At(b, bd, n).d == At(b, bd, p).d - StepCost(b, p, n)
      else dir == (0, 0)
  {
    if In(b, Pos(x, y)) {
      assert Guided(b, f.field[..], bd, Pos(x, y));
    }
  }

  /** The same by tile numbers: from a reached tile that is no finish the direction is an open way to
      a tile whose distance is less by its toll. Nothing ever leads into a tile that blocks. */
  lemma DescentByNumbers(f: FlowField, b: Board, bd: seq<Dist>, x: int, y: int)
    requires f.fldw == b.w && f.fldh == b.h && f.field.Length == |bd| == b.w * b.h
    requires ByNumbers(b, f.field[..], bd)
    ensures
      var (dx, dy) := f.GetField(x, y);
      if 0 <= x < b.w && 0 <= y < b.h && Number(b, bd, x, y).Fin? && Number(b, b.tiles, x, y) != 34 then
        Open(b, x, y, dx, dy) && Number(b, bd, x + dx, y + dy) == Fin(Number(b, bd, x, y).d - Toll(b, dx, dy))
      else (dx, dy) == (0, 0)
  {
    hide Open, Toll, TileByNumbers, Number, FlowField.GetField;
    DirectionIs(f, b, x, y);
    if 0 <= x < b.w && 0 <= y < b.h {
      TileLeads(b, f.field[..], bd, x, y);
    }
  }

  lemma DirectionIs(f: FlowField, b: Board, x: int, y: int)
    requires f.fldw == b.w && f.fldh == b.h && f.field.Length == b.w * b.h
    ensures f.GetField(x, y) ==
      if 0 <= x < b.w && 0 <= y < b.h then
        (Number(b, f.field[..], x, y) % 3 - 1, Number(b, f.field[..], x, y) / 3 - 1)
      else (0, 0)
  {
    hide Flat;
  }

  lemma TileLeads(b: Board, field: seq<int>, bd: seq<Dist>, x: int, y: int)
    requires |field| == |bd| == b.w * b.h && 0 <= x < b.w && 0 <= y < b.h
    requires TileByNumbers(b, field, bd, x, y)
    ensures
      var v := Number(b, field, x, y);
      var dx, dy := v % 3 - 1, v / 3 - 1;
      if Number(b, bd, x, y).Fin? && Number(b, b.tiles, x, y) != 34 then
        Open(b, x, y, dx, dy) && Number(b, bd, x + dx, y + dy) == Fin(Number(b, bd, x, y).d - Toll(b, dx, dy))
      else v == 4
  {
  }
}
