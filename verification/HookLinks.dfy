/** Who hooks whom (`CCharacterCore::SetHookedPlayer` in src/game/gamecore.cpp). Every character
    names the slot it has hooked and keeps the set of those that have hooked it. */
module HookLinks {

  datatype Seat = Free | Taken(hooked: int, attached: set<int>)

  /** The slots of the world by number. */
  type Room = seq<Seat>

  /** Those that have hooked the character of slot `j`. */
  function Hookers(room: Room, j: int): set<int> {
    set i | 0 <= i < |room| && room[i].Taken? && room[i].hooked == j
  }

  /** Each set is the inverse of the hooked relation. */
  ghost predicate Mirrored(room: Room) {
    forall j | 0 <= j < |room| && room[j].Taken? :: room[j].attached == Hookers(room, j)
  }

  /** The set of slot `j` once slot `k` has let go of `was` and hooked `p`. */
  function Reattached(attached: set<int>, j: int, k: int, was: int, p: int): set<int> {
    if was == p then attached
    else if j == was then attached - {k}
    else if j == p then attached + {k}
    else attached
  }

  /** The room after the character of slot `k` has hooked the one of slot `p`, or none. */
  function Relink(room: Room, k: nat, p: int): (r: Room)
    requires k < |room| && room[k].Taken?
  {
    seq(|room|, j requires 0 <= j < |room| =>
      if room[j].Free? then Free
      else Taken(if j == k then p else room[j].hooked, Reattached(room[j].attached, j, k, room[k].hooked, p)))
  }

  lemma RelinkKeeps(room: Room, k: nat, p: int)
    requires k < |room| && room[k].Taken? && Mirrored(room)
    ensures Mirrored(Relink(room, k, p))
  {
    var r := Relink(room, k, p);
    forall j | 0 <= j < |r| && r[j].Taken? ensures r[j].attached == Hookers(r, j) {
      assert room[j].attached == Hookers(room, j);
      assert forall i :: i in Hookers(r, j) <==> i in r[j].attached;
    }
  }

  /** The hooked relation alone fixes a mirrored room. */
  lemma Determined(a: Room, b: Room)
    requires Mirrored(a) && Mirrored(b) && |a| == |b|
    requires forall i | 0 <= i < |a| :: a[i].Taken? == b[i].Taken? && (a[i].Taken? ==> a[i].hooked == b[i].hooked)
    ensures a == b
  {
    forall j | 0 <= j < |a| ensures a[j] == b[j] {
      assert Hookers(a, j) == Hookers(b, j);
    }
  }

  lemma RelinkSame(room: Room, k: nat)
    requires k < |room| && room[k].Taken?
    ensures Relink(room, k, room[k].hooked) == room
  {
  }

  /** Of two calls by one character only the last one leaves a trace. */
  lemma RelinkTwice(room: Room, k: nat, p: int, q: int)
    requires k < |room| && room[k].Taken? && Mirrored(room)
    ensures Relink(Relink(room, k, p), k, q) == Relink(room, k, q)
  {
    RelinkKeeps(room, k, p);
    RelinkKeeps(Relink(room, k, p), k, q);
    RelinkKeeps(room, k, q);
    Determined(Relink(Relink(room, k, p), k, q), Relink(room, k, q));
  }

  predicate Sits(room: Room, k: int) {
    0 <= k < |room| && room[k].Taken?
  }

  /** All that has happened to the room is that `k`, if it sits there, has `p` hooked now. */
  ghost predicate Rehooks(room: Room, k: int, p: int, room': Room) {
    Mirrored(room') && room' == if Sits(room, k) then Relink(room, k, p) else room
  }

  lemma RehooksSame(room: Room, k: int, p: int)
    requires Mirrored(room) && (Sits(room, k) ==> room[k].hooked == p)
    ensures Rehooks(room, k, p, room)
  {
    if Sits(room, k) {
      RelinkSame(room, k);
    }
  }

  lemma RelinkRehooks(room: Room, k: int, p: int, room': Room)
    requires Mirrored(room) && room' == if Sits(room, k) then Relink(room, k, p) else room
    ensures Rehooks(room, k, p, room') && Mirrored(room')
  {
    if Sits(room, k) {
      RelinkKeeps(room, k, p);
    }
  }

  lemma RehooksTwice(a: Room, k: int, p: int, b: Room, q: int, c: Room)
    requires Mirrored(a) && Rehooks(a, k, p, b) && Rehooks(b, k, q, c)
    ensures Rehooks(a, k, q, c) && Mirrored(c)
  {
    if Sits(a, k) {
      RelinkTwice(a, k, p, q);
    }
  }

  // ----- Every sequence of calls -----------------------------------------------------------------

  datatype Call = Call(who: nat, target: int)

  predicate Callable(room: Room, calls: seq<Call>) {
    forall c | c in calls :: c.who < |room| && room[c.who].Taken?
  }

  function AfterCalls(room: Room, calls: seq<Call>): (r: Room)
    requires Callable(room, calls)
    ensures |r| == |room| && forall i | 0 <= i < |r| :: r[i].Taken? == room[i].Taken?
  {
    if calls == [] then room
    else
      assert calls == calls[..|calls| - 1] + [calls[|calls| - 1]];
      Relink(AfterCalls(room, calls[..|calls| - 1]), calls[|calls| - 1].who, calls[|calls| - 1].target)
  }

  /** The target of the last call by `k`; `first` without one. */
  function LastTarget(calls: seq<Call>, k: int, first: int): int {
    if calls == [] then first
    else if calls[|calls| - 1].who == k then calls[|calls| - 1].target
    else LastTarget(calls[..|calls| - 1], k, first)
  }

  /** Whatever characters call in whatever order, a character's set ends as those whose last call
      named it, and every hooked slot is that of its owner's last call. */
  lemma {:induction false} CallsKeep(room: Room, calls: seq<Call>)
    requires Callable(room, calls) && Mirrored(room)
    ensures Mirrored(AfterCalls(room, calls))
    ensures forall i | 0 <= i < |room| && room[i].Taken? ::
              AfterCalls(room, calls)[i].hooked == LastTarget(calls, i, room[i].hooked)
    ensures forall i, j | 0 <= i < |room| && 0 <= j < |room| && room[i].Taken? && room[j].Taken? ::
              i in AfterCalls(room, calls)[j].attached <==> LastTarget(calls, i, room[i].hooked) == j
  {
    if calls != [] {
      CallsKeep(room, calls[..|calls| - 1]);
      var c := calls[|calls| - 1];
      assert calls == calls[..|calls| - 1] + [c];
      RelinkKeeps(AfterCalls(room, calls[..|calls| - 1]), c.who, c.target);
    }
  }
}
