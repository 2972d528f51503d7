/** The order behind table/merger.cpp, without state: which entry of several sorted children comes next.

    Children hold strictly increasing keys; different children may hold equal keys.  An entry is named by its key and
    the index of its child, and entries are ordered by key, ties by child: the order of a stable merge. */
module MergeOrder {
  import opened Options
  import opened Sets

  datatype Entry = Entry(key: int, value: int)

  datatype Id = Id(key: int, child: nat)

  /** A boundary between entries that come earlier and entries that come later. */
  datatype Cut = Bottom | At(key: int, child: nat) | Top

  type Children = seq<seq<Entry>>

  predicate Before(a: Id, b: Id) {
    a.key < b.key || (a.key == b.key && a.child < b.child)
  }

  predicate Below(cut: Cut, key: int, child: nat) {
    match cut
    case Bottom => false
    case At(k, c) => Before(Id(key, child), Id(k, c))
    case Top => true
  }

  ghost predicate Increasing(entries: seq<Entry>) {
    forall p, q :: 0 <= p < q < |entries| ==> entries[p].key < entries[q].key
  }

  ghost predicate AllIncreasing(data: Children) {
    forall i :: 0 <= i < |data| ==> Increasing(data[i])
  }

  /** An entry of some child. */
  ghost predicate Holds(data: Children, e: Id) {
    e.child < |data| && exists p :: 0 <= p < |data[e.child]| && data[e.child][p].key == e.key
  }

  /** An entry of some child, with its value. */
  ghost predicate HoldsValue(data: Children, e: Id, value: int) {
    e.child < |data| && exists p :: 0 <= p < |data[e.child]| && data[e.child][p] == Entry(e.key, value)
  }

  /** Entries by position, as identifiers. */
  lemma HoldsAt(data: Children, i: nat, p: nat)
    requires i < |data| && p < |data[i]|
    ensures Holds(data, Id(data[i][p].key, i))
  {
  }

  // ----- Where a child stands relative to a cut; position -1 is "not valid"

  /** At its first entry past the cut. */
  ghost predicate Ahead(entries: seq<Entry>, pos: int, cut: Cut, child: nat) {
    if pos == -1 then forall q :: 0 <= q < |entries| ==> Below(cut, entries[q].key, child)
    else 0 <= pos < |entries| && !Below(cut, entries[pos].key, child) &&
         forall q :: 0 <= q < pos ==> Below(cut, entries[q].key, child)
  }

  /** At its last entry before the cut. */
  ghost predicate Behind(entries: seq<Entry>, pos: int, cut: Cut, child: nat) {
    if pos == -1 then forall q :: 0 <= q < |entries| ==> !Below(cut, entries[q].key, child)
    else 0 <= pos < |entries| && Below(cut, entries[pos].key, child) &&
         forall q :: pos < q < |entries| ==> !Below(cut, entries[q].key, child)
  }

  ghost predicate AllAhead(data: Children, pos: seq<int>, cut: Cut) {
    |pos| == |data| && forall i :: 0 <= i < |data| ==> Ahead(data[i], pos[i], cut, i)
  }

  ghost predicate AllBehind(data: Children, pos: seq<int>, cut: Cut) {
    |pos| == |data| && forall i :: 0 <= i < |data| ==> Behind(data[i], pos[i], cut, i)
  }

  // ----- What a merge has to produce

  /** The first entry past the cut. */
  ghost predicate LeastAbove(data: Children, cut: Cut, e: Option<Id>) {
    match e
    case None => forall f :: Holds(data, f) ==> Below(cut, f.key, f.child)
    case Some(x) => Holds(data, x) && !Below(cut, x.key, x.child) &&
                    forall f :: Holds(data, f) && !Below(cut, f.key, f.child) ==> !Before(f, x)
  }

  /** The last entry before the cut. */
  ghost predicate GreatestBelow(data: Children, cut: Cut, e: Option<Id>) {
    match e
    case None => forall f :: Holds(data, f) ==> !Below(cut, f.key, f.child)
    case Some(x) => Holds(data, x) && Below(cut, x.key, x.child) &&
                    forall f :: Holds(data, f) && Below(cut, f.key, f.child) ==> !Before(x, f)
  }

  /** `current` is the least of the positioned children: what `FindSmallest` selects. */
  ghost predicate Smallest(data: Children, pos: seq<int>, current: int)
    requires |pos| == |data| && forall i :: 0 <= i < |data| ==> -1 <= pos[i] < |data[i]|
  {
    if current == -1 then forall i :: 0 <= i < |data| ==> pos[i] == -1
    else 0 <= current < |data| && pos[current] >= 0 &&
         forall i :: 0 <= i < |data| && pos[i] >= 0 ==>
           !Before(Id(data[i][pos[i]].key, i), Id(data[current][pos[current]].key, current))
  }

  /** `current` is the greatest of the positioned children: what `FindLargest` selects. */
  ghost predicate Largest(data: Children, pos: seq<int>, current: int)
    requires |pos| == |data| && forall i :: 0 <= i < |data| ==> -1 <= pos[i] < |data[i]|
  {
    if current == -1 then forall i :: 0 <= i < |data| ==> pos[i] == -1
    else 0 <= current < |data| && pos[current] >= 0 &&
         forall i :: 0 <= i < |data| && pos[i] >= 0 ==>
           !Before(Id(data[current][pos[current]].key, current), Id(data[i][pos[i]].key, i))
  }

  ghost function CursorOf(data: Children, pos: seq<int>, current: int): Option<Id>
    requires |pos| == |data| && -1 <= current < |data| && (current >= 0 ==> 0 <= pos[current] < |data[current]|)
  {
    if current == -1 then None else Some(Id(data[current][pos[current]].key, current))
  }

  /** With every child at its first entry past a cut, the least child is at the first entry past the cut, and every
      child is at its first entry not before that one. */
  lemma SmallestIsLeastAbove(data: Children, pos: seq<int>, cut: Cut, current: int)
    requires AllIncreasing(data) && AllAhead(data, pos, cut)
    requires forall i :: 0 <= i < |data| ==> -1 <= pos[i] < |data[i]|
    requires Smallest(data, pos, current)
    ensures LeastAbove(data, cut, CursorOf(data, pos, current))
    ensures current >= 0 ==> AllAhead(data, pos, At(data[current][pos[current]].key, current))
  {
    forall f | Holds(data, f) && !Below(cut, f.key, f.child)
      ensures current >= 0 && !Before(f, Id(data[current][pos[current]].key, current))
    {
      var i := f.child;
      assert Ahead(data[i], pos[i], cut, i);
      var p :| 0 <= p < |data[i]| && data[i][p].key == f.key;
      assert pos[i] <= p;
      assert data[i][pos[i]].key <= data[i][p].key;
    }
    if current >= 0 {
      var x := Id(data[current][pos[current]].key, current);
      HoldsAt(data, current, pos[current]);
      assert Ahead(data[current], pos[current], cut, current);
      forall i | 0 <= i < |data|
        ensures Ahead(data[i], pos[i], At(x.key, x.child), i)
      {
        assert Ahead(data[i], pos[i], cut, i);
      }
    }
  }

  lemma LargestIsGreatestBelow(data: Children, pos: seq<int>, cut: Cut, current: int)
    requires AllIncreasing(data) && AllBehind(data, pos, cut)
    requires forall i :: 0 <= i < |data| ==> -1 <= pos[i] < |data[i]|
    requires Largest(data, pos, current)
    ensures GreatestBelow(data, cut, CursorOf(data, pos, current))
    ensures current >= 0 ==> AllBehind(data, pos, At(data[current][pos[current]].key, current + 1))
  {
    forall f | Holds(data, f) && Below(cut, f.key, f.child)
      ensures current >= 0 && !Before(Id(data[current][pos[current]].key, current), f)
    {
      var i := f.child;
      assert Behind(data[i], pos[i], cut, i);
      var p :| 0 <= p < |data[i]| && data[i][p].key == f.key;
      assert p <= pos[i];
      assert data[i][p].key <= data[i][pos[i]].key;
    }
    if current >= 0 {
      var x := Id(data[current][pos[current]].key, current);
      HoldsAt(data, current, pos[current]);
      assert Behind(data[current], pos[current], cut, current);
      forall i | 0 <= i < |data|
        ensures Behind(data[i], pos[i], At(x.key, x.child + 1), i)
      {
        assert Behind(data[i], pos[i], cut, i);
      }
    }
  }

  // ----- The merged list

  /** The stable merge of the children: every entry once, in order. */
  ghost predicate IsMerge(data: Children, m: seq<Id>) {
    (forall p, q :: 0 <= p < q < |m| ==> Before(m[p], m[q])) && forall e :: Holds(data, e) <==> e in m
  }

  ghost function AtIndex(m: seq<Id>, c: int): Option<Id> {
    if 0 <= c < |m| then Some(m[c]) else None
  }

  /** A cut through the merged list determines what lies on either side of it. */
  lemma CutInMerge(data: Children, m: seq<Id>, cut: Cut, c: nat, above: Option<Id>)
    requires IsMerge(data, m) && c <= |m| && LeastAbove(data, cut, above)
    requires forall q :: 0 <= q < |m| ==> (Below(cut, m[q].key, m[q].child) <==> q < c)
    ensures above == AtIndex(m, c)
  {
    if c < |m| {
      assert m[c] in m;
      if above.Some? {
        var q :| 0 <= q < |m| && m[q] == above.value;
      }
    }
  }

  lemma CutInMergeBelow(data: Children, m: seq<Id>, cut: Cut, c: nat, below: Option<Id>)
    requires IsMerge(data, m) && c <= |m| && GreatestBelow(data, cut, below)
    requires forall q :: 0 <= q < |m| ==> (Below(cut, m[q].key, m[q].child) <==> q < c)
    ensures below == AtIndex(m, c - 1)
  {
    if c > 0 {
      assert m[c - 1] in m;
      if below.Some? {
        var q :| 0 <= q < |m| && m[q] == below.value;
      }
    }
  }

  /** No two children share a key. */
  ghost predicate Disjoint(data: Children) {
    forall e, f :: Holds(data, e) && Holds(data, f) && e.key == f.key ==> e.child == f.child
  }

  // ----- A plain cursor over a list, for comparison

  datatype Move = ToFirst | ToLast | ToKey(target: int) | ToNext | ToPrev

  /** The first index whose key is at or after the target, or the length. */
  function LowerBound(m: seq<Id>, target: int): (c: nat)
    ensures c <= |m| && forall q :: 0 <= q < c ==> m[q].key < target
    ensures c < |m| ==> m[c].key >= target
  {
    if m == [] || m[0].key >= target then 0 else 1 + LowerBound(m[1..], target)
  }

  /** One move of the plain cursor; -1 is "not valid", from where `ToNext` and `ToPrev` may not be asked for. */
  function ListMove(m: seq<Id>, c: int, move: Move): (r: int)
    requires -1 <= c < |m|
    ensures -1 <= r < |m|
  {
    match move
    case ToFirst => if m == [] then -1 else 0
    case ToLast => |m| - 1
    case ToKey(t) => if LowerBound(m, t) < |m| then LowerBound(m, t) else -1
    case ToNext => if 0 <= c && c + 1 < |m| then c + 1 else -1
    case ToPrev => if 0 <= c then c - 1 else -1
  }

  /** The plain cursor after a sequence of moves, starting unpositioned. */
  function ListRun(m: seq<Id>, moves: seq<Move>): (r: int)
    ensures -1 <= r < |m|
  {
    if moves == [] then -1 else ListMove(m, ListRun(m, moves[..|moves| - 1]), moves[|moves| - 1])
  }

  // ----- The cursor the code implements, which remembers its direction

  datatype Direction = Forward | Reverse

  /** A place in a list, -1 for "not valid", and the direction of the last move. */
  datatype Spot = Spot(index: int, direction: Direction)

  /** The first index whose key is after the given one, or the length. */
  function UpperBound(m: seq<Id>, key: int): (c: nat)
    ensures c <= |m| && forall q :: 0 <= q < c ==> m[q].key <= key
    ensures c < |m| ==> m[c].key > key
  {
    if m == [] || m[0].key > key then 0 else 1 + UpperBound(m[1..], key)
  }

  function Within(m: seq<Id>, c: int): (r: int)
    requires -1 <= c
    ensures -1 <= r < |m| && AtIndex(m, r) == AtIndex(m, c)
  {
    if c < |m| then c else -1
  }

  /** One move of the cursor with a direction: turning around, it leaves all entries with the current key behind. */
  function TurningMove(m: seq<Id>, s: Spot, move: Move): (r: Spot)
    requires -1 <= s.index < |m|
    ensures -1 <= r.index < |m|
  {
    match move
    case ToFirst => Spot(Within(m, 0), Forward)
    case ToLast => Spot(|m| - 1, Reverse)
    case ToKey(t) => Spot(Within(m, LowerBound(m, t)), Forward)
    case ToNext =>
      if s.index == -1 then s
      else Spot(Within(m, if s.direction == Forward then s.index + 1 else UpperBound(m, m[s.index].key)), Forward)
    case ToPrev =>
      if s.index == -1 then s
      else Spot(Within(m, (if s.direction == Reverse then s.index else LowerBound(m, m[s.index].key)) - 1), Reverse)
  }

  lemma Turned(m: seq<Id>, s: Spot)
    requires -1 <= s.index < |m|
    ensures AtIndex(m, TurningMove(m, s, ToFirst).index) == AtIndex(m, 0) && TurningMove(m, s, ToFirst).direction == Forward
    ensures AtIndex(m, TurningMove(m, s, ToLast).index) == AtIndex(m, |m| - 1) && TurningMove(m, s, ToLast).direction == Reverse
    ensures s.index >= 0 ==>
              AtIndex(m, TurningMove(m, s, ToNext).index) ==
              AtIndex(m, if s.direction == Forward then s.index + 1 else UpperBound(m, m[s.index].key)) &&
              TurningMove(m, s, ToNext).direction == Forward
    ensures s.index >= 0 ==>
              AtIndex(m, TurningMove(m, s, ToPrev).index) ==
              AtIndex(m, (if s.direction == Reverse then s.index else LowerBound(m, m[s.index].key)) - 1) &&
              TurningMove(m, s, ToPrev).direction == Reverse
    ensures s.index == -1 ==> TurningMove(m, s, ToNext) == s && TurningMove(m, s, ToPrev) == s
  {
    hide AtIndex;
  }

  lemma TurnedTo(m: seq<Id>, s: Spot, t: int)
    requires -1 <= s.index < |m|
    ensures AtIndex(m, TurningMove(m, s, ToKey(t)).index) == AtIndex(m, LowerBound(m, t))
    ensures TurningMove(m, s, ToKey(t)).direction == Forward
  {
  }

  function TurningRun(m: seq<Id>, moves: seq<Move>): (r: Spot)
    ensures -1 <= r.index < |m|
  {
    if moves == [] then Spot(-1, Forward) else TurningMove(m, TurningRun(m, moves[..|moves| - 1]), moves[|moves| - 1])
  }

  /** Turning forward goes to the first entry with a larger key. */
  lemma TurnForwardInMerge(data: Children, m: seq<Id>, c: nat, e: Option<Id>)
    requires IsMerge(data, m) && c < |m| && LeastAbove(data, At(m[c].key, |data|), e)
    ensures e == AtIndex(m, UpperBound(m, m[c].key))
  {
    hide IsMerge, LeastAbove;
    var u := UpperBound(m, m[c].key);
    forall q | 0 <= q < |m|
      ensures Below(At(m[c].key, |data|), m[q].key, m[q].child) <==> q < u
    {
      InMerge(data, m, q);
      if q > u {
        InOrder(data, m, u, q);
      }
    }
    CutInMerge(data, m, At(m[c].key, |data|), u, e);
  }

  lemma InMerge(data: Children, m: seq<Id>, q: nat)
    requires IsMerge(data, m) && q < |m|
    ensures m[q].child < |data|
  {
    assert m[q] in m && Holds(data, m[q]);
  }

  lemma InOrder(data: Children, m: seq<Id>, p: nat, q: nat)
    requires IsMerge(data, m) && p < q < |m|
    ensures m[p].key <= m[q].key
  {
    assert Before(m[p], m[q]);
  }

  /** Turning backward goes to the last entry with a smaller key. */
  lemma TurnBackwardInMerge(data: Children, m: seq<Id>, c: nat, e: Option<Id>)
    requires IsMerge(data, m) && c < |m| && GreatestBelow(data, At(m[c].key, 0), e)
    ensures e == AtIndex(m, LowerBound(m, m[c].key) - 1)
  {
    hide IsMerge, GreatestBelow;
    var l := LowerBound(m, m[c].key);
    forall q | 0 <= q < |m|
      ensures Below(At(m[c].key, 0), m[q].key, m[q].child) <==> q < l
    {
      if q > l {
        InOrder(data, m, l, q);
      }
    }
    CutInMergeBelow(data, m, At(m[c].key, 0), l, e);
  }

  /** With no key shared, neighbours differ in their keys. */
  lemma DisjointNeighbours(data: Children, m: seq<Id>, p: nat, q: nat)
    requires IsMerge(data, m) && Disjoint(data) && p < q < |m|
    ensures m[p].key < m[q].key
  {
    assert m[p] in m && m[q] in m && Before(m[p], m[q]);
    assert Holds(data, m[p]) && Holds(data, m[q]);
  }

  /** With no key shared, the direction does not matter. */
  lemma TurningIsPlain(data: Children, m: seq<Id>, s: Spot, move: Move)
    requires IsMerge(data, m) && Disjoint(data) && -1 <= s.index < |m|
    ensures TurningMove(m, s, move).index == ListMove(m, s.index, move)
  {
    if s.index >= 0 {
      var u, l := UpperBound(m, m[s.index].key), LowerBound(m, m[s.index].key);
      if l < s.index {
        DisjointNeighbours(data, m, l, s.index);
      }
      if s.index + 1 < u {
        DisjointNeighbours(data, m, s.index, s.index + 1);
      }
    }
  }

  lemma {:induction false} TurningRunIsPlain(data: Children, m: seq<Id>, moves: seq<Move>)
    requires IsMerge(data, m) && Disjoint(data)
    ensures TurningRun(m, moves).index == ListRun(m, moves)
  {
    if moves != [] {
      hide IsMerge, Disjoint, ListMove, TurningMove;
      TurningRunIsPlain(data, m, moves[..|moves| - 1]);
      TurningIsPlain(data, m, TurningRun(m, moves[..|moves| - 1]), moves[|moves| - 1]);
    }
  }

  lemma RunOneMore(m: seq<Id>, moves: seq<Move>, move: Move)
    ensures TurningRun(m, moves + [move]) == TurningMove(m, TurningRun(m, moves), move)
    ensures ListRun(m, moves + [move]) == ListMove(m, ListRun(m, moves), move)
  {
    hide TurningMove, ListMove;
    var all := moves + [move];
    assert all[..|all| - 1] == moves && all[|all| - 1] == move;
  }

  lemma FirstBack(m: seq<Id>)
    requires m != []
    ensures TurningRun(m, [ToLast]) == Spot(|m| - 1, Reverse) && ListRun(m, [ToLast]) == |m| - 1
  {
    var none: seq<Move> := [];
    RunOneMore(m, none, ToLast);
    assert none + [ToLast] == [ToLast];
  }

  lemma StepBack(m: seq<Id>, c: nat)
    requires 0 < c < |m|
    ensures TurningMove(m, Spot(c, Reverse), ToPrev) == Spot(c - 1, Reverse) && ListMove(m, c, ToPrev) == c - 1
  {
  }

  /** From the last entry, n steps back. */
  lemma {:induction false} BackFromLast(m: seq<Id>, n: nat) returns (moves: seq<Move>)
    requires n < |m|
    ensures TurningRun(m, moves) == Spot(|m| - 1 - n, Reverse) && ListRun(m, moves) == |m| - 1 - n
  {
    hide TurningMove, ListMove;
    if n == 0 {
      FirstBack(m);
      moves := [ToLast];
    } else {
      var fewer := BackFromLast(m, n - 1);
      RunOneMore(m, fewer, ToPrev);
      StepBack(m, |m| - n);
      moves := fewer + [ToPrev];
    }
  }

  /** Two neighbours with one key: going there from the end and turning around, the two cursors part. */
  lemma SharedNeighboursPart(data: Children, m: seq<Id>, c: nat) returns (moves: seq<Move>)
    requires IsMerge(data, m) && c + 1 < |m| && m[c].key == m[c + 1].key
    ensures TurningRun(m, moves).index != ListRun(m, moves)
  {
    hide IsMerge;
    var back := BackFromLast(m, |m| - 1 - c);
    RunOneMore(m, back, ToNext);
    UpperAfter(m, m[c].key, c + 1, data);
    moves := back + [ToNext];
  }

  lemma UpperAfter(m: seq<Id>, key: int, c: nat, data: Children)
    requires IsMerge(data, m) && c < |m| && m[c].key == key
    ensures UpperBound(m, key) > c
  {
    var u := UpperBound(m, key);
    if u < c {
      InOrder(data, m, u, c);
    }
  }

  /** Two entries with one key are listed next to others with that key. */
  lemma SharedNeighbours(data: Children, m: seq<Id>) returns (c: nat)
    requires IsMerge(data, m) && !Disjoint(data)
    ensures c + 1 < |m| && m[c].key == m[c + 1].key
  {
    var e, f :| Holds(data, e) && Holds(data, f) && e.key == f.key && e.child < f.child;
    assert e in m && f in m;
    var p :| 0 <= p < |m| && m[p] == e;
    var q :| 0 <= q < |m| && m[q] == f;
    assert q < p ==> Before(f, e);
    c := p;
    if p + 1 < q {
      InOrder(data, m, p, p + 1);
      InOrder(data, m, p + 1, q);
    }
  }

  /** The cursor the code implements is the plain one on every sequence of moves exactly when no key is shared. */
  lemma PlainIffDisjoint(data: Children, m: seq<Id>)
    requires IsMerge(data, m)
    ensures (forall moves :: TurningRun(m, moves).index == ListRun(m, moves)) <==> Disjoint(data)
  {
    hide IsMerge, TurningMove;
    if Disjoint(data) {
      forall moves
        ensures TurningRun(m, moves).index == ListRun(m, moves)
      {
        TurningRunIsPlain(data, m, moves);
      }
    } else {
      var c := SharedNeighbours(data, m);
      var moves := SharedNeighboursPart(data, m, c);
    }
  }

  lemma FirstOfMerge(data: Children, m: seq<Id>, e: Option<Id>)
    requires IsMerge(data, m) && LeastAbove(data, Bottom, e)
    ensures e == AtIndex(m, 0)
  {
    CutInMerge(data, m, Bottom, 0, e);
  }

  lemma LastOfMerge(data: Children, m: seq<Id>, e: Option<Id>)
    requires IsMerge(data, m) && GreatestBelow(data, Top, e)
    ensures e == AtIndex(m, |m| - 1)
  {
    CutInMergeBelow(data, m, Top, |m|, e);
  }

  lemma SeekInMerge(data: Children, m: seq<Id>, target: int, e: Option<Id>)
    requires IsMerge(data, m) && LeastAbove(data, At(target, 0), e)
    ensures e == AtIndex(m, LowerBound(m, target))
  {
    CutInMerge(data, m, At(target, 0), LowerBound(m, target), e);
  }

  /** Going on in the same direction is one step along the merged list, shared keys or not. */
  lemma NextInMerge(data: Children, m: seq<Id>, c: nat, e: Option<Id>)
    requires IsMerge(data, m) && c < |m| && LeastAbove(data, At(m[c].key, m[c].child + 1), e)
    ensures e == AtIndex(m, c + 1)
  {
    CutInMerge(data, m, At(m[c].key, m[c].child + 1), c + 1, e);
  }

  lemma PrevInMerge(data: Children, m: seq<Id>, c: nat, e: Option<Id>)
    requires IsMerge(data, m) && c < |m| && GreatestBelow(data, At(m[c].key, m[c].child), e)
    ensures e == AtIndex(m, c - 1)
  {
    CutInMergeBelow(data, m, At(m[c].key, m[c].child), c, e);
  }

  /** A later child shares the key at index c exactly when the next index has it too. */
  lemma SharedLater(data: Children, m: seq<Id>, c: nat)
    requires IsMerge(data, m) && c < |m|
    ensures (exists j :: m[c].child < j < |data| && Holds(data, Id(m[c].key, j))) <==> c + 1 < |m| && m[c + 1].key == m[c].key
  {
    if c + 1 < |m| && m[c + 1].key == m[c].key {
      assert m[c + 1] in m && Before(m[c], m[c + 1]);
      assert Holds(data, Id(m[c].key, m[c + 1].child));
    }
    if exists j :: m[c].child < j < |data| && Holds(data, Id(m[c].key, j)) {
      var j :| m[c].child < j < |data| && Holds(data, Id(m[c].key, j));
      assert Id(m[c].key, j) in m;
      var q :| 0 <= q < |m| && m[q] == Id(m[c].key, j);
      assert q > c && (q == c + 1 || Before(m[c + 1], m[q]));
    }
  }

  lemma SharedEarlier(data: Children, m: seq<Id>, c: nat)
    requires IsMerge(data, m) && c < |m|
    ensures (exists j :: 0 <= j < m[c].child && Holds(data, Id(m[c].key, j))) <==> c > 0 && m[c - 1].key == m[c].key
  {
    if c > 0 && m[c - 1].key == m[c].key {
      assert m[c - 1] in m && Before(m[c - 1], m[c]);
      assert Holds(data, Id(m[c].key, m[c - 1].child));
    }
    if exists j :: 0 <= j < m[c].child && Holds(data, Id(m[c].key, j)) {
      var j :| 0 <= j < m[c].child && Holds(data, Id(m[c].key, j));
      assert Id(m[c].key, j) in m;
      var q :| 0 <= q < |m| && m[q] == Id(m[c].key, j);
      assert q < c && (q == c - 1 || Before(m[q], m[c - 1]));
    }
  }

  /** Turning forward is one step along the merged list exactly when no later child holds the current key. */
  lemma TurnForwardIff(data: Children, m: seq<Id>, c: nat, e: Option<Id>)
    requires IsMerge(data, m) && c < |m| && LeastAbove(data, At(m[c].key, |data|), e)
    ensures e == AtIndex(m, c + 1) <==> !exists j :: m[c].child < j < |data| && Holds(data, Id(m[c].key, j))
  {
    SharedLater(data, m, c);
    if c + 1 < |m| && m[c + 1].key == m[c].key {
      assert m[c + 1] in m;
    } else {
      forall q | 0 <= q < |m|
        ensures Below(At(m[c].key, |data|), m[q].key, m[q].child) <==> q < c + 1
      {
        assert m[q] in m && Holds(data, m[q]);
        if q > c + 1 {
          assert Before(m[c + 1], m[q]);
        }
      }
      CutInMerge(data, m, At(m[c].key, |data|), c + 1, e);
    }
  }

  /** Turning backward is one step along the merged list exactly when no earlier child holds the current key. */
  lemma TurnBackwardIff(data: Children, m: seq<Id>, c: nat, e: Option<Id>)
    requires IsMerge(data, m) && c < |m| && GreatestBelow(data, At(m[c].key, 0), e)
    ensures e == AtIndex(m, c - 1) <==> !exists j :: 0 <= j < m[c].child && Holds(data, Id(m[c].key, j))
  {
    SharedEarlier(data, m, c);
    if c > 0 && m[c - 1].key == m[c].key {
      assert m[c - 1] in m;
    } else {
      forall q | 0 <= q < |m|
        ensures Below(At(m[c].key, 0), m[q].key, m[q].child) <==> q < c
      {
        if q < c - 1 {
          assert Before(m[q], m[c - 1]);
        }
      }
      CutInMergeBelow(data, m, At(m[c].key, 0), c, e);
    }
  }

  /** The cut right before index c of the merged list. */
  ghost function CutAt(m: seq<Id>, c: nat): Cut
    requires c <= |m|
  {
    if c == 0 then Bottom else At(m[c - 1].key, m[c - 1].child + 1)
  }

  lemma {:induction false} MergesAgree(data: Children, m: seq<Id>, n: seq<Id>, c: nat)
    requires IsMerge(data, m) && IsMerge(data, n) && c <= |m|
    ensures AtIndex(m, c) == AtIndex(n, c)
  {
    assert LeastAbove(data, CutAt(m, c), AtIndex(m, c)) by {
      forall f | Holds(data, f) && !Below(CutAt(m, c), f.key, f.child)
        ensures c < |m| && !Before(f, m[c])
      {
        var q :| 0 <= q < |m| && m[q] == f;
      }
      if c < |m| {
        assert m[c] in m;
      }
    }
    if c == 0 {
      FirstOfMerge(data, n, AtIndex(m, 0));
    } else {
      MergesAgree(data, m, n, c - 1);
      NextInMerge(data, n, c - 1, AtIndex(m, c));
    }
  }

  /** The children have one merge only. */
  lemma MergeIsUnique(data: Children, m: seq<Id>, n: seq<Id>)
    requires IsMerge(data, m) && IsMerge(data, n)
    ensures m == n
  {
    MergesAgree(data, m, n, |m|);
    MergesAgree(data, n, m, |n|);
    forall c | 0 <= c < |m|
      ensures c < |n| && m[c] == n[c]
    {
      MergesAgree(data, m, n, c);
    }
  }

  /** A list of every entry in descending order is the merge read backward. */
  lemma MirrorOfMerge(data: Children, m: seq<Id>, out: seq<Id>)
    requires IsMerge(data, m) && (forall p, q :: 0 <= p < q < |out| ==> Before(out[q], out[p]))
    requires forall e :: Holds(data, e) <==> e in out
    ensures |out| == |m| && forall p :: 0 <= p < |m| ==> out[p] == m[|m| - 1 - p]
  {
    var r := seq(|out|, i requires 0 <= i < |out| => out[|out| - 1 - i]);
    assert IsMerge(data, r) by {
      forall e
        ensures e in r <==> e in out
      {
        if e in out {
          var p :| 0 <= p < |out| && out[p] == e;
          assert r[|out| - 1 - p] == e;
        }
      }
    }
    MergeIsUnique(data, m, r);
  }

  // ----- Passes in one direction

  /** `out` lists, in order, the entries before the cursor. */
  ghost predicate ListedUpTo(data: Children, out: seq<Id>, cursor: Option<Id>) {
    (forall p, q :: 0 <= p < q < |out| ==> Before(out[p], out[q])) &&
    forall e :: e in out <==> Holds(data, e) && (cursor.Some? ==> Before(e, cursor.value))
  }

  /** `out` lists, in descending order, the entries after the cursor. */
  ghost predicate ListedDownTo(data: Children, out: seq<Id>, cursor: Option<Id>) {
    (forall p, q :: 0 <= p < q < |out| ==> Before(out[q], out[p])) &&
    forall e :: e in out <==> Holds(data, e) && (cursor.Some? ==> Before(cursor.value, e))
  }

  lemma StartUp(data: Children, cursor: Option<Id>)
    requires LeastAbove(data, Bottom, cursor)
    ensures ListedUpTo(data, [], cursor)
  {
  }

  lemma StartDown(data: Children, cursor: Option<Id>)
    requires GreatestBelow(data, Top, cursor)
    ensures ListedDownTo(data, [], cursor)
  {
  }

  lemma ListNext(data: Children, out: seq<Id>, e: Id, next: Option<Id>)
    requires ListedUpTo(data, out, Some(e)) && Holds(data, e) && LeastAbove(data, At(e.key, e.child + 1), next)
    ensures ListedUpTo(data, out + [e], next) && (next.Some? ==> Before(e, next.value))
  {
    assert forall p :: 0 <= p < |out| ==> out[p] in out;
  }

  lemma ListPrev(data: Children, out: seq<Id>, e: Id, next: Option<Id>)
    requires ListedDownTo(data, out, Some(e)) && Holds(data, e) && GreatestBelow(data, At(e.key, e.child), next)
    ensures ListedDownTo(data, out + [e], next) && (next.Some? ==> Before(next.value, e))
  {
    assert forall p :: 0 <= p < |out| ==> out[p] in out;
  }

  // ----- Counting what is left

  ghost function Ids(data: Children): set<Id> {
    set i, p | 0 <= i < |data| && 0 <= p < |data[i]| :: Id(data[i][p].key, i)
  }

  /** The number of entries not before e. */
  ghost function Left(data: Children, e: Id): nat {
    |set f | f in Ids(data) && !Before(f, e)|
  }

  /** The number of entries not after e. */
  ghost function Passed(data: Children, e: Id): nat {
    |set f | f in Ids(data) && !Before(e, f)|
  }

  lemma HoldsIsIn(data: Children, e: Id)
    ensures Holds(data, e) <==> e in Ids(data)
  {
  }

  lemma {:induction false} SmallerSet(a: set<Id>, b: set<Id>, x: Id)
    requires a <= b && x in b && x !in a
    ensures |a| < |b|
  {
    assert |b - {x}| == |b| - 1;
    SubsetSize(a, b - {x});
  }

  lemma LeftShrinks(data: Children, e: Id, f: Id)
    requires Holds(data, e) && Before(e, f)
    ensures Left(data, f) < Left(data, e)
  {
    HoldsIsIn(data, e);
    SmallerSet((set g | g in Ids(data) && !Before(g, f)), (set g | g in Ids(data) && !Before(g, e)), e);
  }

  lemma PassedShrinks(data: Children, e: Id, f: Id)
    requires Holds(data, f) && Before(e, f)
    ensures Passed(data, e) < Passed(data, f)
  {
    HoldsIsIn(data, f);
    SmallerSet((set g | g in Ids(data) && !Before(e, g)), (set g | g in Ids(data) && !Before(f, g)), f);
  }
}

/** `IteratorWrapper` (table/iterator_wrapper.h) over a child iterator, and `MergingIterator` (table/merger.cpp). */
module Merger {
  import opened Options
  import opened MergeOrder

  /** A child: the `Iterator` contract of include/lldb/iterator.h over a sorted list of entries. */
  class Source {
    const entries: seq<Entry>
    var pos: int

    constructor (entries: seq<Entry>)
      requires Increasing(entries)
      ensures this.entries == entries && pos == -1
    {
      this.entries := entries;
      this.pos := -1;
    }

    ghost predicate Ok()
      reads this
    {
      Increasing(entries) && -1 <= pos < |entries|
    }

    predicate Valid()
      reads this
    {
      0 <= pos < |entries|
    }

    function Key(): int
      requires Valid()
      reads this
    {
      entries[pos].key
    }

    function Value(): int
      requires Valid()
      reads this
    {
      entries[pos].value
    }

    method SeekToFirst()
      requires Ok()
      modifies this
      ensures Ok() && forall c :: Ahead(entries, pos, Bottom, c)
    {
      pos := if entries == [] then -1 else 0;
    }

    method SeekToLast()
      requires Ok()
      modifies this
      ensures Ok() && forall c :: Behind(entries, pos, Top, c)
      ensures pos == |entries| - 1
    {
      pos := |entries| - 1;
    }

    method Seek(target: int)
      requires Ok()
      modifies this
      ensures Ok() && forall c :: Ahead(entries, pos, At(target, 0), c)
    {
      pos := 0;
      while pos < |entries| && entries[pos].key < target
        invariant 0 <= pos <= |entries| && forall q :: 0 <= q < pos ==> entries[q].key < target
      {
        pos := pos + 1;
      }
      if pos == |entries| {
        pos := -1;
      }
    }

    method Next()
      requires Ok() && Valid()
      modifies this
      ensures Ok() && pos == if old(pos) + 1 < |entries| then old(pos) + 1 else -1
    {
      pos := if pos + 1 < |entries| then pos + 1 else -1;
    }

    method Prev()
      requires Ok() && Valid()
      modifies this
      ensures Ok() && pos == old(pos) - 1
    {
      pos := pos - 1;
    }
  }

  /** The wrapper's cache of the child's validity and key. */
  class IteratorWrapper {
    const iter: Source
    var valid: bool
    var key: int

    /** The cache agrees with the child. */
    ghost predicate Ok()
      reads this, iter
    {
      iter.Ok() && valid == iter.Valid() && (valid ==> key == iter.Key())
    }

    constructor (iter: Source)
      requires iter.Ok()
      ensures this.iter == iter && Ok()
    {
      this.iter := iter;
      this.valid := iter.Valid();
      this.key := if iter.Valid() then iter.Key() else 0;
    }

    method Update()
      requires iter.Ok()
      modifies this
      ensures Ok()
    {
      valid := iter.Valid();
      if valid {
        key := iter.Key();
      }
    }

    method SeekToFirst()
      requires Ok()
      modifies this, iter
      ensures Ok() && forall c :: Ahead(iter.entries, iter.pos, Bottom, c)
    {
      iter.SeekToFirst();
      Update();
    }

    method SeekToLast()
      requires Ok()
      modifies this, iter
      ensures Ok() && iter.pos == |iter.entries| - 1
    {
      iter.SeekToLast();
      Update();
    }

    method Seek(target: int)
      requires Ok()
      modifies this, iter
      ensures Ok() && forall c :: Ahead(iter.entries, iter.pos, At(target, 0), c)
    {
      iter.Seek(target);
      Update();
    }

    method Next()
      requires Ok() && valid
      modifies this, iter
      ensures Ok() && iter.pos == if old(iter.pos) + 1 < |iter.entries| then old(iter.pos) + 1 else -1
    {
      iter.Next();
      Update();
    }

    method Prev()
      requires Ok() && valid
      modifies this, iter
      ensures Ok() && iter.pos == old(iter.pos) - 1
    {
      iter.Prev();
      Update();
    }
  }

  /** The repositioning of a child when the direction turns forward: past every entry with the current key. */
  method SeekPast(child: IteratorWrapper, key: int, ghost index: nat, ghost n: nat)
    requires child.Ok() && index < n
    modifies child, child.iter
    ensures child.Ok() && Ahead(child.iter.entries, child.iter.pos, At(key, n), index)
  {
    child.Seek(key);
    assert Ahead(child.iter.entries, child.iter.pos, At(key, 0), index);
    if child.valid && key == child.key {
      child.Next();
    }
  }

  /** The repositioning of a child when the direction turns backward: before every entry with the current key. */
  method SeekBefore(child: IteratorWrapper, key: int, ghost index: nat)
    requires child.Ok()
    modifies child, child.iter
    ensures child.Ok() && Behind(child.iter.entries, child.iter.pos, At(key, 0), index)
  {
    child.Seek(key);
    assert Ahead(child.iter.entries, child.iter.pos, At(key, 0), index);
    if child.valid {
      child.Prev();
    } else {
      child.SeekToLast();
    }
  }

  class MergingIterator {
    const children: seq<IteratorWrapper>
    var current: int         // index of the current child, or -1
    var direction: Direction

    ghost function Repr(): set<object> {
      (set i | 0 <= i < |children| :: children[i]) + (set i | 0 <= i < |children| :: children[i].iter)
    }

    ghost function Data(): (d: Children)
      ensures |d| == |children| && forall i :: 0 <= i < |d| ==> d[i] == children[i].iter.entries
    {
      seq(|children|, i requires 0 <= i < |children| => children[i].iter.entries)
    }

    ghost function Positions(): (p: seq<int>)
      reads Repr()
      ensures |p| == |children| && forall i :: 0 <= i < |p| ==> p[i] == children[i].iter.pos
    {
      seq(|children|, i requires 0 <= i < |children| reads Repr() => children[i].iter.pos)
    }

    /** Children are distinct objects, and each cache agrees with its child. */
    ghost predicate ChildrenOk()
      reads Repr()
    {
      (forall i, j :: 0 <= i < j < |children| ==> children[i] != children[j] && children[i].iter != children[j].iter) &&
      forall i :: 0 <= i < |children| ==> children[i].Ok()
    }

    /** Moving forward, every child is at its first entry not before the current one; moving backward, at its last
        entry not after it. */
    ghost predicate Ok()
      reads this, Repr()
    {
      ChildrenOk() && -1 <= current < |children| && (current >= 0 ==> children[current].iter.Valid()) &&
      (current >= 0 ==>
         if direction == Forward then AllAhead(Data(), Positions(), At(children[current].iter.Key(), current))
         else AllBehind(Data(), Positions(), At(children[current].iter.Key(), current + 1)))
    }

    predicate Valid()
      reads this
    {
      current != -1
    }

    /** The entry the iterator is at. */
    ghost function Cursor(): Option<Id>
      requires Ok()
      reads this, Repr()
    {
      CursorOf(Data(), Positions(), current)
    }

    lemma CursorHeld()
      requires Ok()
      ensures Valid() <==> Cursor().Some?
      ensures Valid() ==> Holds(Data(), Cursor().value) && 0 <= current < |children|
      ensures Valid() ==> children[current].valid && Cursor().value == Id(children[current].iter.Key(), current)
      ensures Valid() ==> children[current].key == children[current].iter.Key()
    {
      if Valid() {
        HoldsAt(Data(), current, Positions()[current]);
      }
    }

    /** `key()`, with the child it comes from. */
    method Current() returns (e: Id)
      requires Ok() && Valid()
      ensures Cursor() == Some(e)
      ensures e == Id(children[current].iter.Key(), current)
    {
      CursorHeld();
      e := Id(children[current].key, current);
    }

    /** `value()`: that of the entry the iterator is at. */
    method Value() returns (v: int)
      requires Ok() && Valid()
      ensures Cursor().Some? && HoldsValue(Data(), Cursor().value, v)
    {
      CursorHeld();
      var source := children[current].iter;
      v := source.Value();
      assert Data()[current][source.pos] == Entry(source.Key(), v);
    }

    constructor (iters: seq<Source>)
      requires forall i :: 0 <= i < |iters| ==> iters[i].Ok()
      requires forall i, j :: 0 <= i < j < |iters| ==> iters[i] != iters[j]
      ensures Ok() && current == -1 && |children| == |iters|
      ensures forall i :: 0 <= i < |iters| ==> children[i].iter == iters[i] && fresh(children[i])
    {
      var wrappers: seq<IteratorWrapper> := [];
      for i := 0 to |iters|
        invariant |wrappers| == i
        invariant forall j :: 0 <= j < i ==> wrappers[j].iter == iters[j] && wrappers[j].Ok() && fresh(wrappers[j])
        invariant forall j, k :: 0 <= j < k < i ==> wrappers[j] != wrappers[k]
      {
        var w := new IteratorWrapper(iters[i]);
        wrappers := wrappers + [w];
      }
      children := wrappers;
      current := -1;
      direction := Forward;
    }

    method FindSmallest()
      requires ChildrenOk()
      modifies `current
      ensures forall i :: 0 <= i < |children| ==> -1 <= Positions()[i] < |Data()[i]|
      ensures Smallest(Data(), Positions(), current)
    {
      var smallest := -1;
      for i := 0 to |children|
        invariant -1 <= smallest < i
        invariant smallest == -1 ==> forall j :: 0 <= j < i ==> !children[j].valid
        invariant smallest >= 0 ==> children[smallest].valid
        invariant smallest >= 0 ==> forall j :: 0 <= j < i && children[j].valid ==>
          !Before(Id(children[j].key, j), Id(children[smallest].key, smallest))
      {
        if children[i].valid {
          if smallest == -1 {
            smallest := i;
          } else if children[i].key < children[smallest].key {
            smallest := i;
          }
        }
      }
      current := smallest;
    }

    method FindLargest()
      requires ChildrenOk()
      modifies `current
      ensures forall i :: 0 <= i < |children| ==> -1 <= Positions()[i] < |Data()[i]|
      ensures Largest(Data(), Positions(), current)
    {
      var largest := -1;
      for i := |children| downto 0
        invariant largest == -1 || i <= largest < |children|
        invariant largest == -1 ==> forall j :: i <= j < |children| ==> !children[j].valid
        invariant largest >= 0 ==> children[largest].valid
        invariant largest >= 0 ==> forall j :: i <= j < |children| && children[j].valid ==>
          !Before(Id(children[largest].key, largest), Id(children[j].key, j))
      {
        if children[i].valid {
          if largest == -1 {
            largest := i;
          } else if children[i].key > children[largest].key {
            largest := i;
          }
        }
      }
      current := largest;
    }

    lemma DataIncreasing()
      requires ChildrenOk()
      ensures AllIncreasing(Data())
    {
      forall i | 0 <= i < |children|
        ensures Increasing(Data()[i])
      {
        assert children[i].Ok();
      }
    }

    /** Settles at the first entry past a cut that every child is ahead of. */
    method SettleForward(ghost cut: Cut)
      requires ChildrenOk() && AllAhead(Data(), Positions(), cut)
      modifies `current, `direction
      ensures Ok() && direction == Forward && LeastAbove(Data(), cut, Cursor())
    {
      hide Ahead, LeastAbove, Smallest, Increasing;
      DataIncreasing();
      FindSmallest();
      SmallestIsLeastAbove(Data(), Positions(), cut, current);
      direction := Forward;
    }

    /** Settles at the last entry before a cut that every child is behind. */
    method SettleReverse(ghost cut: Cut)
      requires ChildrenOk() && AllBehind(Data(), Positions(), cut)
      modifies `current, `direction
      ensures Ok() && direction == Reverse && GreatestBelow(Data(), cut, Cursor())
    {
      hide Behind, GreatestBelow, Largest, Increasing;
      DataIncreasing();
      FindLargest();
      LargestIsGreatestBelow(Data(), Positions(), cut, current);
      direction := Reverse;
    }

    method SeekToFirst()
      requires Ok()
      modifies this, Repr()
      ensures Ok() && direction == Forward && LeastAbove(Data(), Bottom, Cursor())
    {
      hide Ahead, LeastAbove, Increasing;
      for i := 0 to |children|
        invariant ChildrenOk()
        invariant forall j :: 0 <= j < i ==> Ahead(children[j].iter.entries, children[j].iter.pos, Bottom, j)
      {
        children[i].SeekToFirst();
      }
      SettleForward(Bottom);
    }

    method SeekToLast()
      requires Ok()
      modifies this, Repr()
      ensures Ok() && direction == Reverse && GreatestBelow(Data(), Top, Cursor())
    {
      hide GreatestBelow, Increasing;
      for i := 0 to |children|
        invariant ChildrenOk()
        invariant forall j :: 0 <= j < i ==> Behind(children[j].iter.entries, children[j].iter.pos, Top, j)
      {
        children[i].SeekToLast();
      }
      SettleReverse(Top);
    }

    method Seek(target: int)
      requires Ok()
      modifies this, Repr()
      ensures Ok() && direction == Forward && LeastAbove(Data(), At(target, 0), Cursor())
    {
      hide Ahead, LeastAbove, Increasing;
      for i := 0 to |children|
        invariant ChildrenOk()
        invariant forall j :: 0 <= j < i ==> Ahead(children[j].iter.entries, children[j].iter.pos, At(target, 0), j)
      {
        children[i].Seek(target);
      }
      SettleForward(At(target, 0));
    }

    /** The children other than the current one are past the cut. */
    ghost predicate OthersPast(cut: Cut)
      reads `current, Repr()
    {
      forall j :: 0 <= j < |children| && j != current ==>
        Ahead(children[j].iter.entries, children[j].iter.pos, cut, j)
    }

    ghost predicate OthersBefore(cut: Cut)
      reads `current, Repr()
    {
      forall j :: 0 <= j < |children| && j != current ==>
        Behind(children[j].iter.entries, children[j].iter.pos, cut, j)
    }

    /** Turning forward: the other children go past the current key. */
    method TurnForward()
      requires ChildrenOk() && 0 <= current < |children| && children[current].valid
      modifies Repr()
      ensures ChildrenOk() && children[current].iter.pos == old(children[current].iter.pos) && children[current].valid
      ensures OthersPast(At(children[current].iter.Key(), |children|))
    {
      hide Ahead, Behind, Increasing;
      ghost var key := children[current].key;
      for i := 0 to |children|
        invariant ChildrenOk() && children[current].iter.pos == old(children[current].iter.pos)
        invariant children[current].valid && children[current].key == key
        invariant forall j :: 0 <= j < i && j != current ==>
          Ahead(children[j].iter.entries, children[j].iter.pos, At(key, |children|), j)
      {
        if i != current {
          SeekPast(children[i], children[current].key, i, |children|);
        }
      }
    }

    /** Turning backward: the other children go before the current key. */
    method TurnBackward()
      requires ChildrenOk() && 0 <= current < |children| && children[current].valid
      modifies Repr()
      ensures ChildrenOk() && children[current].iter.pos == old(children[current].iter.pos) && children[current].valid
      ensures OthersBefore(At(children[current].iter.Key(), 0))
    {
      hide Ahead, Behind, Increasing;
      ghost var key := children[current].key;
      for i := 0 to |children|
        invariant ChildrenOk() && children[current].iter.pos == old(children[current].iter.pos)
        invariant children[current].valid && children[current].key == key
        invariant forall j :: 0 <= j < i && j != current ==>
          Behind(children[j].iter.entries, children[j].iter.pos, At(key, 0), j)
      {
        if i != current {
          SeekBefore(children[i], children[current].key, i);
        }
      }
    }

    /** Once the other children are past the cut, so is the current child one step on. */
    method StepForward(ghost cut: Cut)
      requires ChildrenOk() && 0 <= current < |children| && children[current].valid
      requires cut.At? && cut.key == children[current].iter.Key() && current < cut.child
      requires OthersPast(cut)
      modifies Repr()
      ensures ChildrenOk() && AllAhead(Data(), Positions(), cut)
    {
      children[current].Next();
      assert Ahead(children[current].iter.entries, children[current].iter.pos, cut, current);
    }

    method StepBackward(ghost cut: Cut)
      requires ChildrenOk() && 0 <= current < |children| && children[current].valid
      requires cut.At? && cut.key == children[current].iter.Key() && cut.child <= current
      requires OthersBefore(cut)
      modifies Repr()
      ensures ChildrenOk() && AllBehind(Data(), Positions(), cut)
    {
      children[current].Prev();
      assert Behind(children[current].iter.entries, children[current].iter.pos, cut, current);
    }

    /** The step of the current child, and the new choice of the smallest. */
    method GoForward(ghost cut: Cut)
      requires ChildrenOk() && 0 <= current < |children| && children[current].valid
      requires cut.At? && cut.key == children[current].iter.Key() && current < cut.child
      requires OthersPast(cut)
      modifies this, Repr()
      ensures Ok() && direction == Forward && LeastAbove(Data(), cut, Cursor())
    {
      hide Ahead, LeastAbove, AllAhead, Ok, Cursor, OthersPast;
      StepForward(cut);
      SettleForward(cut);
    }

    method GoBackward(ghost cut: Cut)
      requires ChildrenOk() && 0 <= current < |children| && children[current].valid
      requires cut.At? && cut.key == children[current].iter.Key() && cut.child <= current
      requires OthersBefore(cut)
      modifies this, Repr()
      ensures Ok() && direction == Reverse && GreatestBelow(Data(), cut, Cursor())
    {
      hide Behind, GreatestBelow, AllBehind, Ok, Cursor, OthersBefore;
      StepBackward(cut);
      SettleReverse(cut);
    }

    /** In the forward direction the other children already are past the current entry. */
    lemma OthersAhead()
      requires Ok() && Valid() && direction == Forward
      ensures OthersPast(At(children[current].iter.Key(), current + 1))
    {
      forall j | 0 <= j < |children| && j != current
        ensures Ahead(children[j].iter.entries, children[j].iter.pos, At(children[current].iter.Key(), current + 1), j)
      {
        assert Ahead(Data()[j], Positions()[j], At(children[current].iter.Key(), current), j);
      }
    }

    lemma OthersBehind()
      requires Ok() && Valid() && direction == Reverse
      ensures OthersBefore(At(children[current].iter.Key(), current))
    {
      forall j | 0 <= j < |children| && j != current
        ensures Behind(children[j].iter.entries, children[j].iter.pos, At(children[current].iter.Key(), current), j)
      {
        assert Behind(Data()[j], Positions()[j], At(children[current].iter.Key(), current + 1), j);
      }
    }

    /** The current child is at an entry. */
    lemma AtEntry()
      requires Ok() && Valid()
      ensures ChildrenOk() && 0 <= current < |children| && children[current].valid && children[current].iter.Valid()
    {
      assert children[current].Ok();
    }

    /** Moves to the first entry after the current one; if the direction turns, to the first with a greater key. */
    method Next()
      requires Ok() && Valid()
      modifies this, Repr()
      ensures Ok() && direction == Forward
      ensures LeastAbove(
                Data(), old(At(children[current].iter.Key(), if direction == Forward then current + 1 else |children|)), Cursor())
    {
      hide Ahead, LeastAbove, AllAhead, OthersPast, Ok, ChildrenOk, Cursor, Source.Valid, Source.Ok, IteratorWrapper.Ok;
      AtEntry();
      ghost var key := children[current].iter.Key();
      if direction == Forward {
        OthersAhead();
        GoForward(At(key, current + 1));
      } else {
        TurnForward();
        direction := Forward;
        GoForward(At(key, |children|));
      }
    }

    /** Moves to the last entry before the current one; if the direction turns, to the last with a smaller key. */
    method Prev()
      requires Ok() && Valid()
      modifies this, Repr()
      ensures Ok() && direction == Reverse
      ensures GreatestBelow(Data(), old(At(children[current].iter.Key(), if direction == Reverse then current else 0)), Cursor())
    {
      hide Behind, GreatestBelow, AllBehind, OthersBefore, Ok, ChildrenOk, Cursor, Source.Valid, Source.Ok, IteratorWrapper.Ok;
      AtEntry();
      ghost var key := children[current].iter.Key();
      if direction == Reverse {
        OthersBehind();
        GoBackward(At(key, current));
      } else {
        TurnBackward();
        direction := Reverse;
        GoBackward(At(key, 0));
      }
    }
  }

  /** One round of a forward pass. */
  method ListOneUp(it: MergingIterator, out: seq<Id>) returns (out': seq<Id>)
    requires it.Ok() && it.direction == Forward && it.Valid() && it.Cursor().Some?
    requires ListedUpTo(it.Data(), out, it.Cursor()) && Holds(it.Data(), it.Cursor().value)
    modifies it, it.Repr()
    ensures it.Ok() && it.direction == Forward && (it.Valid() <==> it.Cursor().Some?) && ListedUpTo(it.Data(), out', it.Cursor())
    ensures it.Cursor().Some? ==>
              Holds(it.Data(), it.Cursor().value) && Left(it.Data(), it.Cursor().value) < Left(it.Data(), old(it.Cursor().value))
  {
    hide MergingIterator.Ok, MergingIterator.Cursor, LeastAbove, ListedUpTo, Left, Before, Holds;
    var e := it.Current();
    it.Next();
    ListNext(it.Data(), out, e, it.Cursor());
    out' := out + [e];
    it.CursorHeld();
    if it.Cursor().Some? {
      LeftShrinks(it.Data(), e, it.Cursor().value);
    }
  }

  /** One round of a backward pass. */
  method ListOneDown(it: MergingIterator, out: seq<Id>) returns (out': seq<Id>)
    requires it.Ok() && it.direction == Reverse && it.Valid() && it.Cursor().Some?
    requires ListedDownTo(it.Data(), out, it.Cursor()) && Holds(it.Data(), it.Cursor().value)
    modifies it, it.Repr()
    ensures it.Ok() && it.direction == Reverse && (it.Valid() <==> it.Cursor().Some?)
    ensures ListedDownTo(it.Data(), out', it.Cursor())
    ensures it.Cursor().Some? ==>
              Holds(it.Data(), it.Cursor().value) &&
              Passed(it.Data(), it.Cursor().value) < Passed(it.Data(), old(it.Cursor().value))
  {
    hide MergingIterator.Ok, MergingIterator.Cursor, GreatestBelow, ListedDownTo, Passed, Before, Holds;
    var e := it.Current();
    it.Prev();
    ListPrev(it.Data(), out, e, it.Cursor());
    out' := out + [e];
    it.CursorHeld();
    if it.Cursor().Some? {
      PassedShrinks(it.Data(), it.Cursor().value, e);
    }
  }

  /** A pass from `SeekToFirst` with `Next` yields the stable merge, every entry once, whether keys are shared or not. */
  method ForwardPass(it: MergingIterator) returns (out: seq<Id>)
    requires it.Ok()
    modifies it, it.Repr()
    ensures it.Ok() && IsMerge(it.Data(), out)
  {
    hide MergingIterator.Ok, MergingIterator.Cursor, LeastAbove, ListedUpTo, Left, Before, Holds, IsMerge;
    it.SeekToFirst();
    out := [];
    StartUp(it.Data(), it.Cursor());
    it.CursorHeld();
    while it.Valid()
      invariant it.Ok() && it.direction == Forward && (it.Valid() <==> it.Cursor().Some?)
      invariant ListedUpTo(it.Data(), out, it.Cursor())
      invariant it.Cursor().Some? ==> Holds(it.Data(), it.Cursor().value)
      decreases if it.Cursor().Some? then 1 + Left(it.Data(), it.Cursor().value) else 0
    {
      out := ListOneUp(it, out);
    }
    ListedAll(it.Data(), out);
  }

  lemma ListedAll(data: Children, out: seq<Id>)
    requires ListedUpTo(data, out, None)
    ensures IsMerge(data, out)
  {
  }

  /** A pass from `SeekToLast` with `Prev` yields every entry once, in descending order. */
  method BackwardPass(it: MergingIterator) returns (out: seq<Id>)
    requires it.Ok()
    modifies it, it.Repr()
    ensures it.Ok() && ListedDownTo(it.Data(), out, None)
  {
    hide MergingIterator.Ok, MergingIterator.Cursor, GreatestBelow, ListedDownTo, Passed, Before, Holds;
    it.SeekToLast();
    out := [];
    StartDown(it.Data(), it.Cursor());
    it.CursorHeld();
    while it.Valid()
      invariant it.Ok() && it.direction == Reverse && (it.Valid() <==> it.Cursor().Some?)
      invariant ListedDownTo(it.Data(), out, it.Cursor())
      invariant it.Cursor().Some? ==> Holds(it.Data(), it.Cursor().value)
      decreases if it.Cursor().Some? then 1 + Passed(it.Data(), it.Cursor().value) else 0
    {
      out := ListOneDown(it, out);
    }
  }

  /** The two passes are exact mirrors of each other. */
  method BothPasses(it: MergingIterator) returns (up: seq<Id>, down: seq<Id>)
    requires it.Ok()
    modifies it, it.Repr()
    ensures IsMerge(it.Data(), up) && |down| == |up| && forall p :: 0 <= p < |up| ==> down[p] == up[|up| - 1 - p]
  {
    up := ForwardPass(it);
    down := BackwardPass(it);
    MirrorOfMerge(it.Data(), up, down);
  }

  /** Any sequence of moves, with any number of changes of direction and whether keys are shared or not, takes the merging
      iterator where it takes the cursor with a direction over the merged list. */
  method ExecuteAny(it: MergingIterator, moves: seq<Move>, ghost m: seq<Id>)
    requires it.Ok() && !it.Valid() && IsMerge(it.Data(), m)
    modifies it, it.Repr()
    ensures it.Ok() && it.Cursor() == AtIndex(m, TurningRun(m, moves).index)
  {
    hide MergingIterator.Ok, IsMerge, TurningMove;
    it.CursorHeld();
    assert moves[..0] == [];
    for i := 0 to |moves|
      invariant it.Ok() && it.Cursor() == AtIndex(m, TurningRun(m, moves[..i]).index)
      invariant it.Valid() ==> it.direction == TurningRun(m, moves[..i]).direction
    {
      assert moves[..i + 1][..i] == moves[..i];
      MakeMove(it, moves[i], m, TurningRun(m, moves[..i]));
    }
    assert moves[..|moves|] == moves;
  }

  /** With no key shared, any sequence of moves, with any number of changes of direction, takes the merging iterator
      where the same moves take a plain cursor over the merged list. */
  method Execute(it: MergingIterator, moves: seq<Move>, ghost m: seq<Id>)
    requires it.Ok() && !it.Valid() && IsMerge(it.Data(), m) && Disjoint(it.Data())
    modifies it, it.Repr()
    ensures it.Ok() && it.Cursor() == AtIndex(m, ListRun(m, moves))
  {
    hide MergingIterator.Ok, IsMerge, Disjoint;
    TurningRunIsPlain(it.Data(), m, moves);
    ExecuteAny(it, moves, m);
  }

  /** One move; `ToNext` and `ToPrev` are not asked of an iterator that is not valid. */
  method MakeMove(it: MergingIterator, move: Move, ghost m: seq<Id>, ghost s: Spot)
    requires it.Ok() && IsMerge(it.Data(), m) && -1 <= s.index < |m| && it.Cursor() == AtIndex(m, s.index)
    requires it.Valid() ==> it.direction == s.direction
    modifies it, it.Repr()
    ensures it.Ok() && it.Cursor() == AtIndex(m, TurningMove(m, s, move).index)
    ensures it.Valid() ==> it.direction == TurningMove(m, s, move).direction
  {
    hide MergingIterator.Ok, MergingIterator.Cursor, IsMerge, LeastAbove, GreatestBelow, TurningMove;
    it.CursorHeld();
    Turned(m, s);
    match move
    case ToFirst =>
      it.SeekToFirst();
      FirstOfMerge(it.Data(), m, it.Cursor());
    case ToLast =>
      it.SeekToLast();
      LastOfMerge(it.Data(), m, it.Cursor());
    case ToKey(t) =>
      it.Seek(t);
      TurnedTo(m, s, t);
      SeekInMerge(it.Data(), m, t, it.Cursor());
    case ToNext =>
      if it.Valid() {
        MoveNext(it, m, s);
      }
    case ToPrev =>
      if it.Valid() {
        MovePrev(it, m, s);
      }
  }

  method MoveNext(it: MergingIterator, ghost m: seq<Id>, ghost s: Spot)
    requires it.Ok() && it.Valid() && IsMerge(it.Data(), m) && 0 <= s.index < |m| && it.Cursor() == AtIndex(m, s.index)
    requires it.direction == s.direction
    modifies it, it.Repr()
    ensures it.Ok() && it.Cursor() == AtIndex(m, TurningMove(m, s, ToNext).index) && it.direction == Forward
  {
    hide MergingIterator.Ok, MergingIterator.Cursor, IsMerge, LeastAbove, TurningMove;
    it.CursorHeld();
    Turned(m, s);
    it.Next();
    if s.direction == Reverse {
      TurnForwardInMerge(it.Data(), m, s.index, it.Cursor());
    } else {
      NextInMerge(it.Data(), m, s.index, it.Cursor());
    }
  }

  method MovePrev(it: MergingIterator, ghost m: seq<Id>, ghost s: Spot)
    requires it.Ok() && it.Valid() && IsMerge(it.Data(), m) && 0 <= s.index < |m| && it.Cursor() == AtIndex(m, s.index)
    requires it.direction == s.direction
    modifies it, it.Repr()
    ensures it.Ok() && it.Cursor() == AtIndex(m, TurningMove(m, s, ToPrev).index) && it.direction == Reverse
  {
    hide MergingIterator.Ok, MergingIterator.Cursor, IsMerge, GreatestBelow, TurningMove;
    it.CursorHeld();
    Turned(m, s);
    it.Prev();
    if s.direction == Forward {
      TurnBackwardInMerge(it.Data(), m, s.index, it.Cursor());
    } else {
      PrevInMerge(it.Data(), m, s.index, it.Cursor());
    }
  }

  /** Turning around can lose an entry: two children hold one key; from the last entry, `Prev` goes to the first child's
      and `Next` does not come back to the second's. */
  method TurnLosesEntry() returns (it: MergingIterator, ghost m: seq<Id>, ghost moves: seq<Move>)
    ensures it.Ok() && it.Data() == [[Entry(5, 0)], [Entry(5, 1)]] && IsMerge(it.Data(), m)
    ensures moves == [ToLast, ToPrev, ToNext] && it.Cursor() == None && AtIndex(m, ListRun(m, moves)) == Some(Id(5, 1))
  {
    var a := new Source([Entry(5, 0)]);
    var b := new Source([Entry(5, 1)]);
    it := new MergingIterator([a, b]);
    m, moves := [Id(5, 0), Id(5, 1)], [ToLast, ToPrev, ToNext];
    assert it.Data() == [[Entry(5, 0)], [Entry(5, 1)]];
    TwoEntries(it.Data(), m);
    ThreeMoves(m, moves);
    hide *;
    ExecuteAny(it, [ToLast, ToPrev, ToNext], m);
  }

  lemma TwoEntries(data: Children, m: seq<Id>)
    requires data == [[Entry(5, 0)], [Entry(5, 1)]] && m == [Id(5, 0), Id(5, 1)]
    ensures IsMerge(data, m)
  {
    forall e
      ensures Holds(data, e) <==> e in m
    {
      if Holds(data, e) {
        assert e == Id(5, 0) || e == Id(5, 1);
      }
      HoldsAt(data, 0, 0);
      HoldsAt(data, 1, 0);
    }
  }

  lemma ThreeMoves(m: seq<Id>, moves: seq<Move>)
    requires m == [Id(5, 0), Id(5, 1)] && moves == [ToLast, ToPrev, ToNext]
    ensures AtIndex(m, TurningRun(m, moves).index) == None && AtIndex(m, ListRun(m, moves)) == Some(Id(5, 1))
  {
    var one, two := moves[..1], moves[..2];
    assert moves[..2] == two && two[..1] == one && one[..0] == [];
    assert TurningRun(m, one) == Spot(1, Reverse) && ListRun(m, one) == 1;
    assert TurningRun(m, two) == Spot(0, Reverse) && ListRun(m, two) == 0;
    assert UpperBound(m, 5) == 2;
  }
}
