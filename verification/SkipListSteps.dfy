/** The skip list of memtable/skiplist.h under concurrency: one writer inside `Insert` and any number of readers
    inside `FindGreaterOrEqual`, `FindLessThan` or `FindLast`, as a step system over single atomic loads and stores.

    Steps of all threads interleave arbitrarily; atomics are sequentially consistent.  A reader step is one load.  A
    writer step is one load of its search, or one store together with the loads that feed it: those read only memory that
    no other thread stores to (`OnlyTheWriterStores`), so taking them at the moment of the store changes nothing. */
module SkipListSteps {
  import opened Sets

  /** A position in the total order of the list's comparator; there are reals enough for every countable order. */
  type Key = real

  const MAX_HEIGHT: nat := 12
  const HEAD: nat := 0

  /** A link that was never stored to, the null pointer, or a pointer to a node. */
  datatype Link = Unset | Null | To(id: nat)

  /** A node is named by its index; its height is the number of its links. */
  datatype Node = Node(key: Key, next: seq<Link>)

  /** What a search looks for.  `AtOrAfter` returns the node after the search point, the other two the point. */
  datatype Goal = AtOrAfter(key: Key) | Before(key: Key) | End

  datatype Search = Search(goal: Goal, x: nat, level: nat)

  /** Where a walk started: at the first node, or at the node with this key. */
  datatype From = Start | At(key: Key)

  datatype Reader =
    | Resting
    | Searching(search: Search)
    | Returned(goal: Goal, result: Link)
    | Walking(from: From, x: nat, listed: seq<Key>) // an iterator at x, or before the first node; the keys it passed
    | Walked(from: From, listed: seq<Key>)          // an iterator past the last node

  datatype Writer =
    | Idle
    | Locating(key: Key, height: nat, search: Search, prev: seq<nat>)
    | Raising(key: Key, height: nat, prev: seq<nat>)                    // about to store max_height_, if needed
    | Allocating(key: Key, height: nat, prev: seq<nat>)                 // about to allocate the node
    | Linking(key: Key, height: nat, prev: seq<nat>, x: nat, i: nat)    // about to store x.next[i]
    | Publishing(key: Key, height: nat, prev: seq<nat>, x: nat, i: nat) // about to store prev[i].next[i]

  /** `levels` records, for each level, the nodes linked there in order, the head first. */
  datatype State = State(
    nodes: seq<Node>, maxHeight: nat, writer: Writer, readers: seq<Reader>, levels: seq<seq<nat>>)

  datatype Step =
    | BeginInsert(key: Key, height: nat)
    | WriterStep
    | BeginSearch(r: nat, goal: Goal)
    | ReaderLoad(r: nat)
    | BeginWalk(r: nat)     // SeekToFirst
    | WalkOn(r: nat)        // from the node that Seek returned
    | WalkLoad(r: nat)

  // ----- Steps

  /** The loop test of a search: move on along the level, or not. */
  predicate KeepsGoing(nodes: seq<Node>, goal: Goal, next: Link)
    requires next.To? ==> next.id < |nodes|
  {
    next.To? && (goal.End? || nodes[next.id].key < goal.key)
  }

  /** A link can be loaded: the node exists and is tall enough, and the loaded pointer leads to a node. */
  predicate Loadable(nodes: seq<Node>, x: nat, level: nat) {
    x < |nodes| && level < |nodes[x].next| && nodes[x].next[level] != Unset &&
    (nodes[x].next[level].To? ==> nodes[x].next[level].id < |nodes|)
  }

  /** One round of a search loop: either the search at its new point, or the pair (point, next) it stops with. */
  datatype Round = Moves(search: Search) | Stops(x: nat, next: Link)

  function SearchRound(nodes: seq<Node>, s: Search): Round
    requires Loadable(nodes, s.x, s.level)
  {
    var next := nodes[s.x].next[s.level];
    if KeepsGoing(nodes, s.goal, next) then Moves(s.(x := next.id))
    else if s.level == 0 then Stops(s.x, next)
    else Moves(s.(level := s.level - 1))
  }

  function Result(goal: Goal, stop: Round): Link
    requires stop.Stops?
  {
    if goal.AtOrAfter? then stop.next else To(stop.x)
  }

  /** `Insert` requires that no equal key is present; the random height is any height. */
  ghost predicate Enabled(s: State, a: Step) {
    match a
    case BeginInsert(key, height) =>
      s.writer.Idle? && 1 <= height <= MAX_HEIGHT && 1 <= s.maxHeight <= MAX_HEIGHT && key !in Contents(s)
    case WriterStep => !s.writer.Idle? && WriterReady(s)
    case BeginSearch(r, _) => r < |s.readers| && !Busy(s.readers[r]) && s.maxHeight > 0
    case ReaderLoad(r) =>
      r < |s.readers| && s.readers[r].Searching? && Loadable(s.nodes, s.readers[r].search.x, s.readers[r].search.level)
    case BeginWalk(r) => r < |s.readers| && !Busy(s.readers[r])
    case WalkOn(r) =>
      r < |s.readers| && s.readers[r].Returned? && s.readers[r].goal.AtOrAfter? && s.readers[r].result.To? &&
      s.readers[r].result.id < |s.nodes|
    case WalkLoad(r) => r < |s.readers| && s.readers[r].Walking? && Loadable(s.nodes, s.readers[r].x, 0)
  }

  predicate Busy(reader: Reader) {
    reader.Searching? || reader.Walking?
  }

  /** The writer's next statement only touches memory that is there, and only loads links that were stored. */
  predicate WriterReady(s: State) {
    match s.writer
    case Idle => true
    case Locating(_, _, search, prev) =>
      Loadable(s.nodes, search.x, search.level) && search.level < |prev|
    case Raising(_, height, prev) => |prev| == MAX_HEIGHT && height <= MAX_HEIGHT
    case Allocating(_, _, _) => true
    case Linking(_, height, prev, x, i) =>
      i < |prev| && x < |s.nodes| && i < |s.nodes[x].next| && Loadable(s.nodes, prev[i], i)
    case Publishing(_, height, prev, x, i) =>
      i < |prev| && prev[i] < |s.nodes| && i < |s.nodes[prev[i]].next| && i < |s.levels| && prev[i] in s.levels[i]
  }

  function SetNext(nodes: seq<Node>, x: nat, i: nat, link: Link): seq<Node>
    requires x < |nodes| && i < |nodes[x].next|
  {
    nodes[x := nodes[x].(next := nodes[x].next[i := link])]
  }

  function ApplyWriter(s: State): State
    requires WriterReady(s)
  {
    match s.writer
    case Idle => s
    case Locating(key, height, search, prev) =>
      var next := s.nodes[search.x].next[search.level];
      if KeepsGoing(s.nodes, search.goal, next) then s.(writer := Locating(key, height, search.(x := next.id), prev))
      else
        var prev' := prev[search.level := search.x];
        if search.level == 0 then s.(writer := Raising(key, height, prev'))
        else s.(writer := Locating(key, height, search.(level := search.level - 1), prev'))
    case Raising(key, height, prev) =>
      if height > s.maxHeight then
        var prev' := seq(MAX_HEIGHT, j requires 0 <= j < MAX_HEIGHT => if s.maxHeight <= j < height then HEAD else prev[j]);
        s.(maxHeight := height, writer := Allocating(key, height, prev'))
      else s.(writer := Allocating(key, height, prev))
    case Allocating(key, height, prev) =>
      s.(nodes := s.nodes + [Node(key, seq(height, _ => Unset))], writer := Linking(key, height, prev, |s.nodes|, 0))
    case Linking(key, height, prev, x, i) =>
      s.(nodes := SetNext(s.nodes, x, i, s.nodes[prev[i]].next[i]), writer := Publishing(key, height, prev, x, i))
    case Publishing(key, height, prev, x, i) =>
      s.(nodes := SetNext(s.nodes, prev[i], i, To(x)),
         levels := s.levels[i := InsertAt(s.levels[i], IndexOf(s.levels[i], prev[i]), x)],
         writer := if i + 1 < height then Linking(key, height, prev, x, i + 1) else Idle)
  }

  function IndexOf(list: seq<nat>, p: nat): (q: nat)
    requires p in list
    ensures q < |list| && list[q] == p
  {
    if list[0] == p then 0 else 1 + IndexOf(list[1..], p)
  }

  /** The list with x right after position q. */
  function InsertAt(list: seq<nat>, q: nat, x: nat): seq<nat>
    requires q < |list|
  {
    list[..q + 1] + [x] + list[q + 1..]
  }

  function Apply(s: State, a: Step): State
    requires Enabled(s, a)
  {
    match a
    case BeginInsert(key, height) =>
      s.(writer := Locating(key, height, Search(AtOrAfter(key), HEAD, s.maxHeight - 1), seq(MAX_HEIGHT, _ => HEAD)))
    case WriterStep => ApplyWriter(s)
    case BeginSearch(r, goal) =>
      s.(readers := s.readers[r := Searching(Search(goal, HEAD, s.maxHeight - 1))])
    case ReaderLoad(r) =>
      var search := s.readers[r].search;
      var round := SearchRound(s.nodes, search);
      s.(readers := s.readers[r :=
        if round.Moves? then Searching(round.search) else Returned(search.goal, Result(search.goal, round))])
    case BeginWalk(r) => s.(readers := s.readers[r := Walking(Start, HEAD, [])])
    case WalkOn(r) =>
      var x := s.readers[r].result.id;
      s.(readers := s.readers[r := Walking(At(s.nodes[x].key), x, [s.nodes[x].key])])
    case WalkLoad(r) =>
      var w := s.readers[r];
      var next := s.nodes[w.x].next[0];
      s.(readers := s.readers[r :=
        if next.To? then Walking(w.from, next.id, w.listed + [s.nodes[next.id].key]) else Walked(w.from, w.listed)])
  }

  // ----- The invariant

  /** The keys in the list: those linked at level 0, head excluded. */
  ghost function Keys(nodes: seq<Node>, levels: seq<seq<nat>>): set<Key> {
    if levels == [] then {}
    else set p | 0 < p < |levels[0]| && levels[0][p] < |nodes| :: nodes[levels[0][p]].key
  }

  ghost function Contents(s: State): set<Key> {
    Keys(s.nodes, s.levels)
  }

  /** `list` is what following level-i links from the head visits, up to the null pointer. */
  ghost predicate Chained(nodes: seq<Node>, i: nat, list: seq<nat>) {
    |list| > 0 && list[0] == HEAD &&
    (forall p :: 0 <= p < |list| ==> list[p] < |nodes| && i < |nodes[list[p]].next|) &&
    (forall p :: 0 <= p < |list| ==>
       nodes[list[p]].next[i] == if p + 1 < |list| then To(list[p + 1]) else Null)
  }

  ghost predicate Sorted(nodes: seq<Node>, list: seq<nat>)
    requires forall p :: 0 <= p < |list| ==> list[p] < |nodes|
  {
    (forall p :: 0 < p < |list| ==> list[p] != HEAD) &&
    forall p :: 0 < p < |list| - 1 ==> nodes[list[p]].key < nodes[list[p + 1]].key
  }

  ghost predicate LevelOk(nodes: seq<Node>, i: nat, list: seq<nat>) {
    Chained(nodes, i, list) && Sorted(nodes, list)
  }

  ghost predicate Nested(levels: seq<seq<nat>>) {
    forall i :: 0 < i < |levels| ==> forall x :: x in levels[i] ==> x in levels[i - 1]
  }

  ghost predicate ListOk(nodes: seq<Node>, levels: seq<seq<nat>>, maxHeight: nat) {
    |levels| == MAX_HEIGHT && 1 <= maxHeight <= MAX_HEIGHT &&
    (forall i :: 0 <= i < MAX_HEIGHT ==> LevelOk(nodes, i, levels[i])) &&
    (forall i :: maxHeight <= i < MAX_HEIGHT ==> levels[i] == [HEAD]) &&
    Nested(levels)
  }

  /** The point of a search is linked at its level, and lies before what the search looks for. */
  ghost predicate SearchOk(nodes: seq<Node>, levels: seq<seq<nat>>, search: Search) {
    search.level < |levels| && search.x in levels[search.level] && search.x < |nodes| &&
    (search.x != HEAD && !search.goal.End? ==> nodes[search.x].key < search.goal.key)
  }

  /** p is the last node before `key` in the list, and `key` itself is not there. */
  ghost predicate Pred(nodes: seq<Node>, list: seq<nat>, p: nat, key: Key) {
    exists q :: PredAt(nodes, list, p, q, key)
  }

  ghost predicate PredAt(nodes: seq<Node>, list: seq<nat>, p: nat, q: nat, key: Key) {
    q < |list| && list[q] == p && p < |nodes| && (q > 0 ==> nodes[p].key < key) &&
    (q + 1 < |list| ==> list[q + 1] < |nodes| && key < nodes[list[q + 1]].key)
  }

  ghost predicate PrevOk(nodes: seq<Node>, levels: seq<seq<nat>>, prev: seq<nat>, lo: nat, hi: nat, key: Key) {
    |prev| == MAX_HEIGHT == |levels| && hi <= MAX_HEIGHT &&
    forall j :: lo <= j < hi ==> Pred(nodes, levels[j], prev[j], key)
  }

  /** The node being inserted is linked at exactly the levels below i. */
  ghost predicate PartlyLinked(nodes: seq<Node>, levels: seq<seq<nat>>, w: Writer)
    requires w.Linking? || w.Publishing?
  {
    w.i < w.height && HEAD < w.x < |nodes| && nodes[w.x].key == w.key && |nodes[w.x].next| == w.height &&
    forall j :: 0 <= j < |levels| ==> (w.x in levels[j] <==> j < w.i)
  }

  ghost predicate WriterOk(nodes: seq<Node>, levels: seq<seq<nat>>, maxHeight: nat, w: Writer) {
    (!w.Idle? ==> 1 <= w.height <= MAX_HEIGHT) &&
    match w
    case Idle => true
    case Locating(key, height, search, prev) =>
      key !in Keys(nodes, levels) && search.goal == AtOrAfter(key) && SearchOk(nodes, levels, search) &&
      search.level < maxHeight && PrevOk(nodes, levels, prev, search.level + 1, maxHeight, key)
    case Raising(key, height, prev) => PrevOk(nodes, levels, prev, 0, maxHeight, key)
    case Allocating(key, height, prev) => height <= maxHeight && PrevOk(nodes, levels, prev, 0, height, key)
    case Linking(key, height, prev, x, i) =>
      height <= maxHeight && PrevOk(nodes, levels, prev, i, height, key) && PartlyLinked(nodes, levels, w)
    case Publishing(key, height, prev, x, i) =>
      height <= maxHeight && PrevOk(nodes, levels, prev, i, height, key) && PartlyLinked(nodes, levels, w) &&
      prev[i] < |nodes| && i < |nodes[prev[i]].next| && nodes[x].next[i] == nodes[prev[i]].next[i]
  }

  /** An iterator has listed its node's key last, in strictly increasing order. */
  ghost predicate WalkOk(nodes: seq<Node>, levels: seq<seq<nat>>, x: nat, listed: seq<Key>) {
    levels != [] && x in levels[0] && x < |nodes| && Increasing(listed) &&
    (x == HEAD <==> listed == []) && (x != HEAD ==> listed[|listed| - 1] == nodes[x].key)
  }

  ghost predicate StartedAt(from: From, listed: seq<Key>) {
    from.At? ==> listed != [] && listed[0] == from.key
  }

  ghost predicate Increasing(listed: seq<Key>) {
    forall p, q :: 0 <= p < q < |listed| ==> listed[p] < listed[q]
  }

  ghost predicate ReaderOk(nodes: seq<Node>, levels: seq<seq<nat>>, reader: Reader) {
    match reader
    case Searching(search) => SearchOk(nodes, levels, search)
    case Returned(goal, result) =>
      goal.AtOrAfter? && result.To? ==> levels != [] && result.id in levels[0] && HEAD < result.id < |nodes|
    case Walking(from, x, listed) => WalkOk(nodes, levels, x, listed) && StartedAt(from, listed)
    case Walked(from, listed) => Increasing(listed) && StartedAt(from, listed)
    case _ => true
  }

  ghost predicate ReadersOk(nodes: seq<Node>, levels: seq<seq<nat>>, readers: seq<Reader>) {
    forall r :: 0 <= r < |readers| ==> ReaderOk(nodes, levels, readers[r])
  }

  ghost predicate Inv(s: State) {
    ListOk(s.nodes, s.levels, s.maxHeight) && WriterOk(s.nodes, s.levels, s.maxHeight, s.writer) &&
    ReadersOk(s.nodes, s.levels, s.readers)
  }

  // ----- Searches

  lemma {:induction false} LinkedBelow(levels: seq<seq<nat>>, i: nat, j: nat, x: nat)
    requires Nested(levels) && j <= i < |levels| && x in levels[i]
    ensures x in levels[j]
    decreases i
  {
    if j < i {
      LinkedBelow(levels, i - 1, j, x);
    }
  }

  /** What a search loads from its point: a stored link, to the next node of its level. */
  lemma SearchLoads(nodes: seq<Node>, levels: seq<seq<nat>>, maxHeight: nat, search: Search) returns (q: nat)
    requires ListOk(nodes, levels, maxHeight) && SearchOk(nodes, levels, search)
    ensures Loadable(nodes, search.x, search.level)
    ensures q < |levels[search.level]| && levels[search.level][q] == search.x
    ensures nodes[search.x].next[search.level]
         == if q + 1 < |levels[search.level]| then To(levels[search.level][q + 1]) else Null
  {
    var list := levels[search.level];
    assert LevelOk(nodes, search.level, list);
    hide LevelOk;
    q := IndexOf(list, search.x);
    LevelAt(nodes, search.level, list, q);
    if q + 1 < |list| {
      LevelAt(nodes, search.level, list, q + 1);
    }
  }

  lemma SearchRoundKeepsOk(nodes: seq<Node>, levels: seq<seq<nat>>, maxHeight: nat, search: Search)
    requires ListOk(nodes, levels, maxHeight) && SearchOk(nodes, levels, search)
    ensures Loadable(nodes, search.x, search.level)
    ensures var round := SearchRound(nodes, search); round.Moves? ==> SearchOk(nodes, levels, round.search)
  {
    var q := SearchLoads(nodes, levels, maxHeight, search);
    if SearchRound(nodes, search).Moves? && search.level > 0 {
      LinkedBelow(levels, search.level, search.level - 1, search.x);
    }
  }

  /** The exact answer to a search over the keys linked at level 0. */
  ghost predicate Answers(nodes: seq<Node>, levels: seq<seq<nat>>, goal: Goal, result: Link) {
    var keys := Keys(nodes, levels);
    result != Unset && levels != [] && (result.To? ==> result.id in levels[0] && result.id < |nodes|) &&
    (result.To? && result.id != HEAD ==> nodes[result.id].key in keys) &&
    match goal
    case AtOrAfter(key) =>
      if result.To? then
        result.id != HEAD && key <= nodes[result.id].key &&
        forall k :: k in keys && key <= k ==> nodes[result.id].key <= k
      else forall k :: k in keys ==> k < key
    case Before(key) =>
      result.To? &&
      if result.id == HEAD then forall k :: k in keys ==> key <= k
      else nodes[result.id].key < key && forall k :: k in keys && k < key ==> k <= nodes[result.id].key
    case End =>
      result.To? &&
      if result.id == HEAD then keys == {} else forall k :: k in keys ==> k <= nodes[result.id].key
  }

  lemma {:induction false} KeysIncrease(nodes: seq<Node>, i: nat, list: seq<nat>, p: nat, q: nat)
    requires LevelOk(nodes, i, list) && 0 < p < q < |list|
    ensures nodes[list[p]].key < nodes[list[q]].key
    decreases q
  {
    if p + 1 < q {
      KeysIncrease(nodes, i, list, p, q - 1);
    }
    assert nodes[list[q - 1]].key < nodes[list[q - 1 + 1]].key;
  }

  lemma KeyAt(nodes: seq<Node>, levels: seq<seq<nat>>, p: nat)
    requires levels != [] && LevelOk(nodes, 0, levels[0]) && 0 < p < |levels[0]|
    ensures nodes[levels[0][p]].key in Keys(nodes, levels)
  {
  }

  /** Every key lies at or before position q of level 0, or at or after the next position. */
  lemma KeysAround(nodes: seq<Node>, levels: seq<seq<nat>>, q: nat, k: Key)
    requires levels != [] && LevelOk(nodes, 0, levels[0]) && q < |levels[0]| && k in Keys(nodes, levels)
    ensures (q > 0 && k <= nodes[levels[0][q]].key) || (q + 1 < |levels[0]| && nodes[levels[0][q + 1]].key <= k)
  {
    var list := levels[0];
    var p :| 0 < p < |list| && nodes[list[p]].key == k;
    if p < q {
      KeysIncrease(nodes, 0, list, p, q);
    } else if q + 1 < p {
      KeysIncrease(nodes, 0, list, q + 1, p);
    }
  }

  lemma SearchStopsRight(nodes: seq<Node>, levels: seq<seq<nat>>, maxHeight: nat, search: Search)
    requires ListOk(nodes, levels, maxHeight) && SearchOk(nodes, levels, search)
    requires Loadable(nodes, search.x, search.level) && SearchRound(nodes, search).Stops?
    ensures Answers(nodes, levels, search.goal, Result(search.goal, SearchRound(nodes, search)))
  {
    var list := levels[0];
    var q := SearchLoads(nodes, levels, maxHeight, search);
    assert LevelOk(nodes, 0, list);
    if q > 0 {
      KeyAt(nodes, levels, q);
    }
    if q + 1 < |list| {
      KeyAt(nodes, levels, q + 1);
    }
    AnswerFromPosition(nodes, levels, search.goal, q, Result(search.goal, SearchRound(nodes, search)));
  }

  lemma AnswerFromPosition(nodes: seq<Node>, levels: seq<seq<nat>>, goal: Goal, q: nat, result: Link)
    requires levels != [] && LevelOk(nodes, 0, levels[0]) && q < |levels[0]|
    requires q > 0 ==> nodes[levels[0][q]].key in Keys(nodes, levels) && (!goal.End? ==> nodes[levels[0][q]].key < goal.key)
    requires q + 1 < |levels[0]| ==>
      nodes[levels[0][q + 1]].key in Keys(nodes, levels) && !goal.End? && goal.key <= nodes[levels[0][q + 1]].key
    requires result == if !goal.AtOrAfter? then To(levels[0][q]) else if q + 1 < |levels[0]| then To(levels[0][q + 1]) else Null
    ensures Answers(nodes, levels, goal, result)
  {
    forall k | k in Keys(nodes, levels)
      ensures (q > 0 && k <= nodes[levels[0][q]].key) || (q + 1 < |levels[0]| && nodes[levels[0][q + 1]].key <= k)
    {
      KeysAround(nodes, levels, q, k);
    }
  }

  // ----- The writer's steps

  lemma DistinctNodes(nodes: seq<Node>, i: nat, list: seq<nat>, p: nat, q: nat)
    requires LevelOk(nodes, i, list) && p < q < |list|
    ensures list[p] != list[q]
  {
    if p > 0 {
      KeysIncrease(nodes, i, list, p, q);
    }
  }

  lemma IndexIsUnique(nodes: seq<Node>, i: nat, list: seq<nat>, q: nat)
    requires LevelOk(nodes, i, list) && q < |list|
    ensures IndexOf(list, list[q]) == q
  {
    var r := IndexOf(list, list[q]);
    if r < q {
      DistinctNodes(nodes, i, list, r, q);
    } else if q < r {
      DistinctNodes(nodes, i, list, q, r);
    }
  }

  /** A store to a link of another level, or of a node not linked at this level, does not touch the level. */
  lemma StoreElsewhere(nodes: seq<Node>, i: nat, list: seq<nat>, x: nat, j: nat, link: Link)
    requires LevelOk(nodes, i, list) && x < |nodes| && j < |nodes[x].next| && (i != j || x !in list)
    ensures LevelOk(SetNext(nodes, x, j, link), i, list)
  {
    var nodes' := SetNext(nodes, x, j, link);
    forall p | 0 <= p < |list|
      ensures list[p] < |nodes'| && i < |nodes'[list[p]].next| && nodes'[list[p]].key == nodes[list[p]].key
      ensures nodes'[list[p]].next[i] == nodes[list[p]].next[i]
    {
      assert list[p] in list;
    }
  }

  lemma AllocationElsewhere(nodes: seq<Node>, i: nat, list: seq<nat>, n: Node)
    requires LevelOk(nodes, i, list)
    ensures LevelOk(nodes + [n], i, list)
  {
    forall p | 0 <= p < |list|
      ensures (nodes + [n])[list[p]] == nodes[list[p]]
    {
    }
  }

  lemma InsertAtIndices(list: seq<nat>, q: nat, x: nat, p: nat)
    requires q < |list| && p <= |list|
    ensures |InsertAt(list, q, x)| == |list| + 1
    ensures InsertAt(list, q, x)[p] == if p <= q then list[p] else if p == q + 1 then x else list[p - 1]
  {
  }

  /** What a level says about its node at position p. */
  ghost predicate PlacedAt(nodes: seq<Node>, i: nat, list: seq<nat>, p: nat)
    requires p < |list|
  {
    list[p] < |nodes| && i < |nodes[list[p]].next| && (p > 0 ==> list[p] != HEAD) &&
    nodes[list[p]].next[i] == (if p + 1 < |list| then To(list[p + 1]) else Null) &&
    (0 < p < |list| - 1 ==> list[p + 1] < |nodes| && nodes[list[p]].key < nodes[list[p + 1]].key)
  }

  lemma LevelAt(nodes: seq<Node>, i: nat, list: seq<nat>, p: nat)
    requires LevelOk(nodes, i, list) && p < |list|
    ensures PlacedAt(nodes, i, list, p)
  {
  }

  lemma LevelFromPlaces(nodes: seq<Node>, i: nat, list: seq<nat>)
    requires |list| > 0 && list[0] == HEAD && forall p :: 0 <= p < |list| ==> PlacedAt(nodes, i, list, p)
    ensures LevelOk(nodes, i, list)
  {
    forall p | 0 <= p < |list|
      ensures list[p] < |nodes| && i < |nodes[list[p]].next| && (p > 0 ==> list[p] != HEAD)
      ensures nodes[list[p]].next[i] == if p + 1 < |list| then To(list[p + 1]) else Null
      ensures 0 < p < |list| - 1 ==> list[p + 1] < |nodes| && nodes[list[p]].key < nodes[list[p + 1]].key
    {
      assert PlacedAt(nodes, i, list, p);
    }
  }

  /** The positions of the spliced level, one by one. */
  lemma SplicedAt(nodes: seq<Node>, i: nat, list: seq<nat>, q: nat, x: nat, p: nat)
    requires LevelOk(nodes, i, list) && q < |list| && HEAD < x < |nodes| && i < |nodes[x].next| && x !in list
    requires PredAt(nodes, list, list[q], q, nodes[x].key) && nodes[x].next[i] == nodes[list[q]].next[i] && p <= |list|
    ensures |InsertAt(list, q, x)| == |list| + 1
    ensures PlacedAt(SetNext(nodes, list[q], i, To(x)), i, InsertAt(list, q, x), p)
  {
    hide LevelOk;
    InsertAtIndices(list, q, x, p);
    if p < |list| {
      InsertAtIndices(list, q, x, p + 1);
    }
    LevelAt(nodes, i, list, q);
    if p < q {
      LevelAt(nodes, i, list, p);
      DistinctNodes(nodes, i, list, p, q);
    } else if p > q + 1 {
      LevelAt(nodes, i, list, p - 1);
      DistinctNodes(nodes, i, list, q, p - 1);
    }
  }

  /** The publishing store splices the new node into its level, and into nothing else. */
  lemma PublishSplices(nodes: seq<Node>, i: nat, list: seq<nat>, q: nat, x: nat)
    requires LevelOk(nodes, i, list) && q < |list| && HEAD < x < |nodes| && i < |nodes[x].next| && x !in list
    requires PredAt(nodes, list, list[q], q, nodes[x].key) && nodes[x].next[i] == nodes[list[q]].next[i]
    ensures i < |nodes[list[q]].next| && LevelOk(SetNext(nodes, list[q], i, To(x)), i, InsertAt(list, q, x))
  {
    LevelAt(nodes, i, list, 0);
    LevelAt(nodes, i, list, q);
    assert list[0] == HEAD;
    hide LevelOk, PlacedAt, PredAt, SetNext;
    forall p | 0 <= p <= |list|
      ensures p < |InsertAt(list, q, x)| && PlacedAt(SetNext(nodes, list[q], i, To(x)), i, InsertAt(list, q, x), p)
    {
      SplicedAt(nodes, i, list, q, x, p);
    }
    InsertAtIndices(list, q, x, 0);
    LevelFromPlaces(SetNext(nodes, list[q], i, To(x)), i, InsertAt(list, q, x));
  }

  /** Nodes and links only appear; keys never change. */
  ghost predicate Grows(nodes: seq<Node>, levels: seq<seq<nat>>, nodes': seq<Node>, levels': seq<seq<nat>>) {
    |nodes| <= |nodes'| && (forall x :: 0 <= x < |nodes| ==> nodes'[x].key == nodes[x].key) &&
    |levels'| == |levels| && forall i :: 0 <= i < |levels| ==> forall x :: x in levels[i] ==> x in levels'[i]
  }

  lemma GrowthKeepsReaders(
      nodes: seq<Node>, levels: seq<seq<nat>>, nodes': seq<Node>, levels': seq<seq<nat>>, readers: seq<Reader>)
    requires ReadersOk(nodes, levels, readers) && Grows(nodes, levels, nodes', levels')
    ensures ReadersOk(nodes', levels', readers)
  {
    forall r | 0 <= r < |readers|
      ensures ReaderOk(nodes', levels', readers[r])
    {
      assert ReaderOk(nodes, levels, readers[r]);
    }
  }

  /** A store that leaves the level lists alone keeps predecessors. */
  lemma PrevKept(nodes: seq<Node>, nodes': seq<Node>, levels: seq<seq<nat>>, levels': seq<seq<nat>>,
                 prev: seq<nat>, lo: nat, lo': nat, hi: nat, key: Key)
    requires PrevOk(nodes, levels, prev, lo, hi, key) && |nodes| <= |nodes'| && lo <= lo' && |levels'| == |levels|
    requires forall x :: 0 <= x < |nodes| ==> nodes'[x].key == nodes[x].key
    requires forall j :: lo' <= j < hi ==> levels'[j] == levels[j]
    ensures PrevOk(nodes', levels', prev, lo', hi, key)
  {
    forall j | lo' <= j < hi
      ensures Pred(nodes', levels'[j], prev[j], key)
    {
      assert Pred(nodes, levels[j], prev[j], key);
      var q :| PredAt(nodes, levels[j], prev[j], q, key);
      assert PredAt(nodes', levels'[j], prev[j], q, key);
    }
  }

  /** Where a search stops on a level is the place to insert on that level. */
  lemma StopIsPred(nodes: seq<Node>, levels: seq<seq<nat>>, maxHeight: nat, search: Search)
    requires ListOk(nodes, levels, maxHeight) && SearchOk(nodes, levels, search) && search.goal.AtOrAfter?
    requires search.goal.key !in Keys(nodes, levels) && Loadable(nodes, search.x, search.level)
    requires !KeepsGoing(nodes, search.goal, nodes[search.x].next[search.level])
    ensures Pred(nodes, levels[search.level], search.x, search.goal.key)
  {
    var list := levels[search.level];
    var q := SearchLoads(nodes, levels, maxHeight, search);
    if q + 1 < |list| {
      var y := list[q + 1];
      assert y in list;
      LinkedBelow(levels, search.level, 0, y);
      assert LevelOk(nodes, search.level, list) && LevelOk(nodes, 0, levels[0]);
      KeyAt(nodes, levels, IndexOf(levels[0], y));
    }
    assert PredAt(nodes, list, search.x, q, search.goal.key);
  }

  /** Searches terminate: the level, then the nodes left on it, decrease. */
  lemma MoveGetsCloser(nodes: seq<Node>, levels: seq<seq<nat>>, maxHeight: nat, search: Search)
    requires ListOk(nodes, levels, maxHeight) && SearchOk(nodes, levels, search)
    requires Loadable(nodes, search.x, search.level) && nodes[search.x].next[search.level].To?
    ensures nodes[search.x].next[search.level].id in levels[search.level]
    ensures IndexOf(levels[search.level], search.x)
          < IndexOf(levels[search.level], nodes[search.x].next[search.level].id)
  {
    var list := levels[search.level];
    var q := SearchLoads(nodes, levels, maxHeight, search);
    assert LevelOk(nodes, search.level, list);
    IndexIsUnique(nodes, search.level, list, q);
    IndexIsUnique(nodes, search.level, list, q + 1);
  }

  ghost predicate Kept(s: State, s': State) {
    Inv(s') && Grows(s.nodes, s.levels, s'.nodes, s'.levels)
  }

  /** Leaving a level: its predecessor is now known. */
  lemma LevelLocated(nodes: seq<Node>, levels: seq<seq<nat>>, prev: seq<nat>, level: nat, hi: nat, x: nat, key: Key)
    requires PrevOk(nodes, levels, prev, level + 1, hi, key) && level < MAX_HEIGHT && Pred(nodes, levels[level], x, key)
    ensures PrevOk(nodes, levels, prev[level := x], level, hi, key)
  {
    hide Pred;
  }

  lemma LocatingWriter(s: State)
    requires ListOk(s.nodes, s.levels, s.maxHeight) && WriterOk(s.nodes, s.levels, s.maxHeight, s.writer) && s.writer.Locating?
    ensures WriterReady(s) && WriterOk(s.nodes, s.levels, s.maxHeight, ApplyWriter(s).writer)
  {
    hide ListOk, PrevOk, SearchOk, Keys;
    var w := s.writer;
    SearchRoundKeepsOk(s.nodes, s.levels, s.maxHeight, w.search);
    PrevLength(s.nodes, s.levels, w.prev, w.search.level + 1, s.maxHeight, w.key);
    if !KeepsGoing(s.nodes, w.search.goal, s.nodes[w.search.x].next[w.search.level]) {
      StopIsPred(s.nodes, s.levels, s.maxHeight, w.search);
      LevelLocated(s.nodes, s.levels, w.prev, w.search.level, s.maxHeight, w.search.x, w.key);
    }
  }

  lemma PrevLength(nodes: seq<Node>, levels: seq<seq<nat>>, prev: seq<nat>, lo: nat, hi: nat, key: Key)
    requires PrevOk(nodes, levels, prev, lo, hi, key)
    ensures |prev| == MAX_HEIGHT == |levels| && hi <= MAX_HEIGHT
  {
  }

  lemma LocatingKept(s: State)
    requires Inv(s) && s.writer.Locating?
    ensures WriterReady(s) && Kept(s, ApplyWriter(s))
  {
    hide ListOk, WriterOk, ReadersOk;
    LocatingWriter(s);
  }

  lemma RaisingKept(s: State)
    requires Inv(s) && s.writer.Raising?
    ensures WriterReady(s) && Kept(s, ApplyWriter(s))
  {
    var w, w' := s.writer, ApplyWriter(s).writer;
    forall j | 0 <= j < w.height
      ensures Pred(s.nodes, s.levels[j], w'.prev[j], w.key)
    {
      if j >= s.maxHeight {
        assert LevelOk(s.nodes, j, s.levels[j]);
        assert PredAt(s.nodes, s.levels[j], HEAD, 0, w.key);
      }
    }
  }

  lemma AllocatingKept(s: State)
    requires Inv(s) && s.writer.Allocating?
    ensures Kept(s, ApplyWriter(s))
  {
    var w, s' := s.writer, ApplyWriter(s);
    forall i | 0 <= i < MAX_HEIGHT
      ensures LevelOk(s'.nodes, i, s.levels[i]) && |s.nodes| !in s.levels[i]
    {
      assert LevelOk(s.nodes, i, s.levels[i]);
      AllocationElsewhere(s.nodes, i, s.levels[i], s'.nodes[|s.nodes|]);
    }
    PrevKept(s.nodes, s'.nodes, s.levels, s.levels, w.prev, 0, 0, w.height, w.key);
    GrowthKeepsReaders(s.nodes, s.levels, s'.nodes, s'.levels, s.readers);
  }

  lemma LinkingKept(s: State)
    requires Inv(s) && s.writer.Linking?
    ensures WriterReady(s) && Kept(s, ApplyWriter(s))
  {
    var w := s.writer;
    assert Pred(s.nodes, s.levels[w.i], w.prev[w.i], w.key);
    var q :| PredAt(s.nodes, s.levels[w.i], w.prev[w.i], q, w.key);
    assert LevelOk(s.nodes, w.i, s.levels[w.i]);
    var s' := ApplyWriter(s);
    forall i | 0 <= i < MAX_HEIGHT
      ensures LevelOk(s'.nodes, i, s.levels[i])
    {
      assert LevelOk(s.nodes, i, s.levels[i]);
      StoreElsewhere(s.nodes, i, s.levels[i], w.x, w.i, s.nodes[w.prev[w.i]].next[w.i]);
    }
    PrevKept(s.nodes, s'.nodes, s.levels, s.levels, w.prev, w.i, w.i, w.height, w.key);
    GrowthKeepsReaders(s.nodes, s.levels, s'.nodes, s'.levels, s.readers);
  }

  lemma InsertAtMembers(list: seq<nat>, q: nat, x: nat, y: nat)
    requires q < |list|
    ensures y in InsertAt(list, q, x) <==> y == x || y in list
  {
    assert list == list[..q + 1] + list[q + 1..];
  }

  /** What the publishing store does to the level lists. */
  lemma PublishLevels(s: State)
    requires Inv(s) && s.writer.Publishing?
    ensures WriterReady(s)
    ensures forall j :: 0 <= j < MAX_HEIGHT ==> LevelOk(ApplyWriter(s).nodes, j, ApplyWriter(s).levels[j])
    ensures forall j, y :: 0 <= j < MAX_HEIGHT ==>
      (y in ApplyWriter(s).levels[j] <==> y in s.levels[j] || (j == s.writer.i && y == s.writer.x))
  {
    hide ReadersOk, LevelOk, Nested;
    var w := s.writer;
    var list := s.levels[w.i];
    assert Pred(s.nodes, list, w.prev[w.i], w.key);
    var q :| PredAt(s.nodes, list, w.prev[w.i], q, w.key);
    assert LevelOk(s.nodes, w.i, list);
    IndexIsUnique(s.nodes, w.i, list, q);
    PublishSplices(s.nodes, w.i, list, q, w.x);
    forall j | 0 <= j < MAX_HEIGHT
      ensures LevelOk(ApplyWriter(s).nodes, j, ApplyWriter(s).levels[j])
    {
      if j != w.i {
        assert LevelOk(s.nodes, j, s.levels[j]);
        StoreElsewhere(s.nodes, j, s.levels[j], w.prev[w.i], w.i, To(w.x));
      }
    }
    forall y
      ensures y in InsertAt(list, q, w.x) <==> y == w.x || y in list
    {
      InsertAtMembers(list, q, w.x, y);
    }
  }

  lemma NestedAfterPublish(levels: seq<seq<nat>>, levels': seq<seq<nat>>, i: nat, x: nat)
    requires Nested(levels) && |levels'| == |levels|
    requires forall j, y :: 0 <= j < |levels| ==> (y in levels'[j] <==> y in levels[j] || (j == i && y == x))
    requires 0 < i < |levels| ==> x in levels[i - 1]
    ensures Nested(levels')
  {
    forall j | 0 < j < |levels'|
      ensures forall y :: y in levels'[j] ==> y in levels'[j - 1]
    {
      assert forall y :: y in levels[j] ==> y in levels[j - 1];
    }
  }

  lemma PublishNested(s: State)
    requires Inv(s) && s.writer.Publishing?
    ensures WriterReady(s) && Nested(ApplyWriter(s).levels)
  {
    PublishLevels(s);
    NestedAfterPublish(s.levels, ApplyWriter(s).levels, s.writer.i, s.writer.x);
  }

  lemma PublishListOk(s: State)
    requires Inv(s) && s.writer.Publishing?
    ensures WriterReady(s) && ListOk(ApplyWriter(s).nodes, ApplyWriter(s).levels, s.maxHeight)
    ensures Grows(s.nodes, s.levels, ApplyWriter(s).nodes, ApplyWriter(s).levels)
  {
    PublishNested(s);
    PublishLevels(s);
    assert forall i :: s.maxHeight <= i < MAX_HEIGHT ==> ApplyWriter(s).levels[i] == s.levels[i];
  }

  lemma PublishWriterOk(s: State)
    requires Inv(s) && s.writer.Publishing?
    ensures WriterReady(s) && WriterOk(ApplyWriter(s).nodes, ApplyWriter(s).levels, s.maxHeight, ApplyWriter(s).writer)
  {
    PublishLevels(s);
    var w, s' := s.writer, ApplyWriter(s);
    if w.i + 1 < w.height {
      PrevKept(s.nodes, s'.nodes, s.levels, s'.levels, w.prev, w.i, w.i + 1, w.height, w.key);
      assert PartlyLinked(s'.nodes, s'.levels, s'.writer);
    }
  }

  lemma PublishingKept(s: State)
    requires Inv(s) && s.writer.Publishing?
    ensures WriterReady(s) && Kept(s, ApplyWriter(s))
  {
    PublishListOk(s);
    PublishWriterOk(s);
    GrowthKeepsReaders(s.nodes, s.levels, ApplyWriter(s).nodes, ApplyWriter(s).levels, s.readers);
  }

  lemma WriterKept(s: State)
    requires Inv(s)
    ensures WriterReady(s) && Kept(s, ApplyWriter(s))
  {
    match s.writer
    case Idle =>
    case Locating(_, _, _, _) => LocatingKept(s);
    case Raising(_, _, _) => RaisingKept(s);
    case Allocating(_, _, _) => AllocatingKept(s);
    case Linking(_, _, _, _, _) => LinkingKept(s);
    case Publishing(_, _, _, _, _) => PublishingKept(s);
  }

  /** The next node of an iterator's walk. */
  lemma WalkGoesOn(nodes: seq<Node>, levels: seq<seq<nat>>, maxHeight: nat, x: nat, listed: seq<Key>)
    requires ListOk(nodes, levels, maxHeight) && WalkOk(nodes, levels, x, listed)
    ensures Loadable(nodes, x, 0)
    ensures nodes[x].next[0].To? ==> WalkOk(nodes, levels, nodes[x].next[0].id, listed + [nodes[nodes[x].next[0].id].key])
    ensures forall k :: k in Keys(nodes, levels) ==>
      (x != HEAD && k <= nodes[x].key) || (nodes[x].next[0].To? && nodes[nodes[x].next[0].id].key <= k)
  {
    var list := levels[0];
    assert LevelOk(nodes, 0, list);
    var q := SearchLoads(nodes, levels, maxHeight, Search(End, x, 0));
    LevelAt(nodes, 0, list, q);
    if q + 1 < |list| {
      LevelAt(nodes, 0, list, q + 1);
      assert list[q + 1] in list;
    }
    forall k | k in Keys(nodes, levels)
      ensures (q > 0 && k <= nodes[list[q]].key) || (q + 1 < |list| && nodes[list[q + 1]].key <= k)
    {
      KeysAround(nodes, levels, q, k);
    }
  }

  lemma HeadLinked(s: State, level: nat)
    requires ListOk(s.nodes, s.levels, s.maxHeight) && level < MAX_HEIGHT
    ensures HEAD in s.levels[level] && |s.nodes| > 0
  {
    assert LevelOk(s.nodes, level, s.levels[level]);
  }

  /** A reader's step changes that reader only. */
  lemma ReaderKept(s: State, r: nat, reader: Reader)
    requires Inv(s) && r < |s.readers| && ReaderOk(s.nodes, s.levels, reader)
    ensures Kept(s, s.(readers := s.readers[r := reader]))
  {
    hide ListOk, WriterOk, ReaderOk;
  }

  lemma BeginInsertKept(s: State, key: Key, height: nat)
    requires Inv(s) && Enabled(s, BeginInsert(key, height))
    ensures Kept(s, Apply(s, BeginInsert(key, height)))
  {
    HeadLinked(s, s.maxHeight - 1);
    hide ListOk, ReadersOk;
  }

  lemma StepKept(s: State, a: Step)
    requires Inv(s) && Enabled(s, a)
    ensures Kept(s, Apply(s, a))
  {
    assert ListOk(s.nodes, s.levels, s.maxHeight) && ReadersOk(s.nodes, s.levels, s.readers);
    hide Inv, Kept, ListOk, SearchOk, WalkOk;
    match a
    case BeginInsert(key, height) => BeginInsertKept(s, key, height);
    case WriterStep => WriterKept(s);
    case BeginSearch(r, goal) =>
      ReaderBegins(s, goal);
      ReaderKept(s, r, Apply(s, a).readers[r]);
    case ReaderLoad(r) => ReaderLoadKept(s, r);
    case BeginWalk(r) =>
      ReaderBegins(s, End);
      ReaderKept(s, r, Apply(s, a).readers[r]);
    case WalkOn(r) => WalkOnKept(s, r);
    case WalkLoad(r) => WalkLoadKept(s, r);
  }

  lemma ReaderIs(s: State, r: nat)
    requires Inv(s) && r < |s.readers|
    ensures ListOk(s.nodes, s.levels, s.maxHeight) && ReaderOk(s.nodes, s.levels, s.readers[r])
  {
  }

  lemma ReaderLoadKept(s: State, r: nat)
    requires Inv(s) && Enabled(s, ReaderLoad(r))
    ensures Kept(s, Apply(s, ReaderLoad(r)))
  {
    hide Inv, Kept, ListOk, SearchOk;
    ReaderIs(s, r);
    SearchRoundKeepsOk(s.nodes, s.levels, s.maxHeight, s.readers[r].search);
    ReturnsLinked(s.nodes, s.levels, s.maxHeight, s.readers[r].search);
    ReaderKept(s, r, Apply(s, ReaderLoad(r)).readers[r]);
  }

  lemma WalkOnKept(s: State, r: nat)
    requires Inv(s) && Enabled(s, WalkOn(r))
    ensures Kept(s, Apply(s, WalkOn(r)))
  {
    hide Inv, Kept, ListOk, WalkOk;
    ReaderIs(s, r);
    WalkStartsOn(s.nodes, s.levels, s.readers[r].result.id);
    ReaderKept(s, r, Apply(s, WalkOn(r)).readers[r]);
  }

  lemma WalkLoadKept(s: State, r: nat)
    requires Inv(s) && Enabled(s, WalkLoad(r))
    ensures Kept(s, Apply(s, WalkLoad(r)))
  {
    hide Inv, Kept, ListOk;
    ReaderIs(s, r);
    WalkGoesOn(s.nodes, s.levels, s.maxHeight, s.readers[r].x, s.readers[r].listed);
    ReaderKept(s, r, Apply(s, WalkLoad(r)).readers[r]);
  }

  lemma WalkStartsOn(nodes: seq<Node>, levels: seq<seq<nat>>, x: nat)
    requires levels != [] && x in levels[0] && HEAD < x < |nodes|
    ensures WalkOk(nodes, levels, x, [nodes[x].key])
  {
  }

  /** A search for the first key at or after another returns a linked node, if it returns one. */
  lemma ReturnsLinked(nodes: seq<Node>, levels: seq<seq<nat>>, maxHeight: nat, search: Search)
    requires ListOk(nodes, levels, maxHeight) && SearchOk(nodes, levels, search) && Loadable(nodes, search.x, search.level)
    ensures var round := SearchRound(nodes, search);
            round.Stops? && search.goal.AtOrAfter? && Result(search.goal, round).To? ==>
              levels != [] && Result(search.goal, round).id in levels[0] && HEAD < Result(search.goal, round).id < |nodes|
  {
    if SearchRound(nodes, search).Stops? {
      SearchStopsRight(nodes, levels, maxHeight, search);
    }
  }

  lemma ReaderBegins(s: State, goal: Goal)
    requires ListOk(s.nodes, s.levels, s.maxHeight)
    ensures 1 <= s.maxHeight <= |s.levels| && |s.nodes| > 0
    ensures SearchOk(s.nodes, s.levels, Search(goal, HEAD, s.maxHeight - 1))
    ensures WalkOk(s.nodes, s.levels, HEAD, [])
  {
    HeadLinked(s, s.maxHeight - 1);
    HeadLinked(s, 0);
  }

  // ----- Safety over every run

  ghost predicate Initial(s: State) {
    |s.nodes| == 1 && s.nodes[HEAD].next == seq(MAX_HEIGHT, _ => Null) && s.maxHeight == 1 && s.writer.Idle? &&
    s.levels == seq(MAX_HEIGHT, _ => [HEAD]) &&
    forall r :: 0 <= r < |s.readers| ==> s.readers[r].Resting?
  }

  ghost predicate Run(states: seq<State>, steps: seq<Step>) {
    |states| == |steps| + 1 && Initial(states[0]) &&
    forall i :: 0 <= i < |steps| ==> Enabled(states[i], steps[i]) && states[i + 1] == Apply(states[i], steps[i])
  }

  lemma InitialInv(s: State)
    requires Initial(s)
    ensures Inv(s)
  {
    forall i | 0 <= i < MAX_HEIGHT
      ensures LevelOk(s.nodes, i, s.levels[i])
    {
    }
  }

  lemma {:induction false} RunKeepsInv(states: seq<State>, steps: seq<Step>, i: nat)
    requires Run(states, steps) && i < |states|
    ensures Inv(states[i])
    decreases i
  {
    if i == 0 {
      InitialInv(states[0]);
    } else {
      RunKeepsInv(states, steps, i - 1);
      StepKept(states[i - 1], steps[i - 1]);
    }
  }

  /** At every point of every interleaving, each level is the null-terminated chain of its links, strictly sorted, and
      its nodes are among those of the level below. */
  lemma LevelsStaySorted(states: seq<State>, steps: seq<Step>, i: nat, level: nat)
    requires Run(states, steps) && i < |states| && level < MAX_HEIGHT
    ensures |states[i].levels| == MAX_HEIGHT && Chained(states[i].nodes, level, states[i].levels[level])
    ensures forall p, q :: 0 < p < q < |states[i].levels[level]| ==>
      states[i].nodes[states[i].levels[level][p]].key < states[i].nodes[states[i].levels[level][q]].key
    ensures level > 0 ==> forall x :: x in states[i].levels[level] ==> x in states[i].levels[level - 1]
  {
    RunKeepsInv(states, steps, i);
    var s := states[i];
    assert LevelOk(s.nodes, level, s.levels[level]);
    forall p, q | 0 < p < q < |s.levels[level]|
      ensures s.nodes[s.levels[level][p]].key < s.nodes[s.levels[level][q]].key
    {
      KeysIncrease(s.nodes, level, s.levels[level], p, q);
    }
  }

  /** Readers store nothing, and every store is the writer's. */
  lemma OnlyTheWriterStores(s: State, a: Step)
    requires Enabled(s, a) && !a.WriterStep? && !a.BeginInsert?
    ensures Apply(s, a) == s.(readers := Apply(s, a).readers)
  {
  }

  /** No thread ever follows a link that was not stored: a searching reader can always take its load, and the writer
      can always take its next step. */
  lemma NoUnsetLinkFollowed(states: seq<State>, steps: seq<Step>, i: nat)
    requires Run(states, steps) && i < |states|
    ensures forall r :: 0 <= r < |states[i].readers| && states[i].readers[r].Searching? ==>
      Loadable(states[i].nodes, states[i].readers[r].search.x, states[i].readers[r].search.level)
    ensures forall r :: 0 <= r < |states[i].readers| && states[i].readers[r].Walking? ==>
      Loadable(states[i].nodes, states[i].readers[r].x, 0)
    ensures WriterReady(states[i])
  {
    RunKeepsInv(states, steps, i);
    var s := states[i];
    forall r | 0 <= r < |s.readers| && s.readers[r].Searching?
      ensures Loadable(s.nodes, s.readers[r].search.x, s.readers[r].search.level)
    {
      assert ReaderOk(s.nodes, s.levels, s.readers[r]);
      SearchRoundKeepsOk(s.nodes, s.levels, s.maxHeight, s.readers[r].search);
    }
    forall r | 0 <= r < |s.readers| && s.readers[r].Walking?
      ensures Loadable(s.nodes, s.readers[r].x, 0)
    {
      assert ReaderOk(s.nodes, s.levels, s.readers[r]);
      WalkGoesOn(s.nodes, s.levels, s.maxHeight, s.readers[r].x, s.readers[r].listed);
    }
    WriterKept(s);
  }

  /** A search returns the exact answer over the keys linked at the moment of its last load, whatever was inserted
      while it ran and however stale the height it started from. */
  lemma SearchesAreExact(states: seq<State>, steps: seq<Step>, i: nat)
    requires Run(states, steps) && i < |steps| && steps[i].ReaderLoad?
    requires states[i + 1].readers[steps[i].r].Returned?
    ensures states[i].readers[steps[i].r].Searching?
    ensures states[i + 1].readers[steps[i].r].goal == states[i].readers[steps[i].r].search.goal
    ensures Answers(states[i + 1].nodes, states[i + 1].levels, states[i + 1].readers[steps[i].r].goal,
                    states[i + 1].readers[steps[i].r].result)
  {
    RunKeepsInv(states, steps, i);
    var s, r := states[i], steps[i].r;
    assert ReaderOk(s.nodes, s.levels, s.readers[r]);
    SearchStopsRight(s.nodes, s.levels, s.maxHeight, s.readers[r].search);
  }

  lemma ContentsByMembers(nodes: seq<Node>, levels: seq<seq<nat>>)
    requires levels != [] && LevelOk(nodes, 0, levels[0])
    ensures forall k :: k in Keys(nodes, levels) <==> exists x :: x in levels[0] && x != HEAD && nodes[x].key == k
  {
    forall k
      ensures k in Keys(nodes, levels) <==> exists x :: x in levels[0] && x != HEAD && nodes[x].key == k
    {
      if k in Keys(nodes, levels) {
        var p :| 0 < p < |levels[0]| && nodes[levels[0][p]].key == k;
        assert levels[0][p] in levels[0];
      }
      if exists x :: x in levels[0] && x != HEAD && nodes[x].key == k {
        var x :| x in levels[0] && x != HEAD && nodes[x].key == k;
        KeyAt(nodes, levels, IndexOf(levels[0], x));
      }
    }
  }

  lemma KeysKept(nodes: seq<Node>, levels: seq<seq<nat>>, nodes': seq<Node>, levels': seq<seq<nat>>)
    requires levels != [] && levels' != [] && LevelOk(nodes, 0, levels[0]) && levels'[0] == levels[0]
    requires |nodes| <= |nodes'| && forall x :: 0 <= x < |nodes| ==> nodes'[x].key == nodes[x].key
    ensures Keys(nodes', levels') == Keys(nodes, levels)
  {
  }

  lemma KeysGain(nodes: seq<Node>, levels: seq<seq<nat>>, nodes': seq<Node>, levels': seq<seq<nat>>, x: nat)
    requires levels != [] && levels' != [] && LevelOk(nodes, 0, levels[0]) && LevelOk(nodes', 0, levels'[0])
    requires |nodes| == |nodes'| && forall x :: 0 <= x < |nodes| ==> nodes'[x].key == nodes[x].key
    requires HEAD < x < |nodes| && forall y :: y in levels'[0] <==> y in levels[0] || y == x
    ensures Keys(nodes', levels') == Keys(nodes, levels) + {nodes[x].key}
  {
    ContentsByMembers(nodes, levels);
    ContentsByMembers(nodes', levels');
    forall k
      ensures k in Keys(nodes', levels') <==> k in Keys(nodes, levels) || k == nodes[x].key
    {
      if k == nodes[x].key {
        assert x in levels'[0] && nodes'[x].key == k;
      }
      if k in Keys(nodes, levels) {
        var y :| y in levels[0] && y != HEAD && nodes[y].key == k;
        assert y in levels'[0] && nodes'[y].key == k;
      }
    }
  }

  lemma QuietStep(s: State, a: Step)
    requires Inv(s) && Enabled(s, a) && !(a.WriterStep? && s.writer.Publishing? && s.writer.i == 0)
    ensures Apply(s, a).levels != [] && Apply(s, a).levels[0] == s.levels[0]
  {
    hide ReadersOk, SearchRound, Result, LevelOk, Nested;
  }

  /** Keys only appear, one at a time, and each at one definite step: the level-0 publication of its node. */
  lemma ContentsChangeAtPublish(s: State, a: Step)
    requires Inv(s) && Enabled(s, a)
    ensures Contents(Apply(s, a)) == Contents(s) +
      (if a.WriterStep? && s.writer.Publishing? && s.writer.i == 0 then {s.writer.key} else {})
  {
    StepKept(s, a);
    assert LevelOk(s.nodes, 0, s.levels[0]);
    if a.WriterStep? && s.writer.Publishing? && s.writer.i == 0 {
      PublishLevels(s);
      KeysGain(s.nodes, s.levels, Apply(s, a).nodes, Apply(s, a).levels, s.writer.x);
    } else {
      QuietStep(s, a);
      KeysKept(s.nodes, s.levels, Apply(s, a).nodes, Apply(s, a).levels);
    }
  }

  lemma {:induction false} ContentsGrow(states: seq<State>, steps: seq<Step>, i: nat, j: nat)
    requires Run(states, steps) && i <= j < |states|
    ensures Contents(states[i]) <= Contents(states[j])
    decreases j
  {
    if i < j {
      ContentsGrow(states, steps, i, j - 1);
      RunKeepsInv(states, steps, j - 1);
      ContentsChangeAtPublish(states[j - 1], steps[j - 1]);
    }
  }

  /** No reader misses a key that was there before it returned: an `AtOrAfter` search that ends at step j finds a node,
      and one at or before any key >= its target that was present at an earlier point i. */
  lemma SearchesMissNothing(states: seq<State>, steps: seq<Step>, i: nat, j: nat, k: Key)
    requires Run(states, steps) && i <= j < |steps| && steps[j].ReaderLoad?
    requires var reader := states[j + 1].readers[steps[j].r];
             reader.Returned? && reader.goal.AtOrAfter? && reader.goal.key <= k && k in Contents(states[i])
    ensures var reader := states[j + 1].readers[steps[j].r];
            reader.result.To? && reader.result.id < |states[j + 1].nodes| &&
            reader.goal.key <= states[j + 1].nodes[reader.result.id].key <= k
  {
    ContentsGrow(states, steps, i, j + 1);
    SearchesAreExact(states, steps, j);
  }

  // ----- Searches end

  lemma RunStep(states: seq<State>, steps: seq<Step>, j: nat)
    requires Run(states, steps) && 0 < j < |states|
    ensures |states| == |steps| + 1 && Enabled(states[j - 1], steps[j - 1]) && states[j] == Apply(states[j - 1], steps[j - 1])
    ensures Inv(states[j - 1]) && Kept(states[j - 1], states[j])
  {
    var i := j - 1;
    assert Enabled(states[i], steps[i]) && states[i + 1] == Apply(states[i], steps[i]);
    RunKeepsInv(states, steps, i);
    StepKept(states[i], steps[i]);
  }

  /** The loads of reader r among the steps from i up to j. */
  ghost function Loads(steps: seq<Step>, i: nat, j: nat, r: nat): nat
    requires j <= |steps|
  {
    if j <= i then 0 else Loads(steps, i, j - 1, r) + if steps[j - 1] == ReaderLoad(r) then 1 else 0
  }

  /** The nodes, linked or not, whose keys a search at x has passed. */
  ghost function Passed(nodes: seq<Node>, x: nat): set<nat> {
    if x == HEAD || x >= |nodes| then {} else set y | 0 < y < |nodes| && nodes[y].key <= nodes[x].key
  }

  lemma {:induction false} FewerThan(a: set<nat>, n: nat)
    requires forall y :: y in a ==> 0 < y < n
    ensures |a| <= if n == 0 then 0 else n - 1
  {
    if n > 0 {
      FewerThan(a - {n - 1}, n - 1);
      if n - 1 in a {
        assert a == a - {n - 1} + {n - 1};
      } else {
        assert a == a - {n - 1};
      }
    }
  }

  lemma MorePassed(nodes: seq<Node>, x: nat, nodes': seq<Node>, x': nat)
    requires |nodes| <= |nodes'| && (forall y :: 0 <= y < |nodes| ==> nodes'[y].key == nodes[y].key) && x < |nodes|
    requires x' == x || (HEAD < x' < |nodes'| && (x != HEAD ==> nodes[x].key < nodes'[x'].key))
    ensures |Passed(nodes', x')| >= |Passed(nodes, x)| + if x' == x then 0 else 1
  {
    var a, b := Passed(nodes, x), Passed(nodes', x');
    SubsetSize(a, if x' == x then b else b - {x'});
    if x' != x {
      assert x' in b && x' !in a;
    }
  }

  /** A round of a search that goes on leaves a level, or passes another key. */
  lemma RoundMakesProgress(nodes: seq<Node>, levels: seq<seq<nat>>, maxHeight: nat, search: Search)
    requires ListOk(nodes, levels, maxHeight) && SearchOk(nodes, levels, search)
    ensures Loadable(nodes, search.x, search.level)
    ensures var round := SearchRound(nodes, search);
            round.Moves? ==>
              round.search.x < |nodes| &&
              round.search.level + |Passed(nodes, search.x)| + 1 <= search.level + |Passed(nodes, round.search.x)|
  {
    var q := SearchLoads(nodes, levels, maxHeight, search);
    if KeepsGoing(nodes, search.goal, nodes[search.x].next[search.level]) {
      assert LevelOk(nodes, search.level, levels[search.level]);
      LevelAt(nodes, search.level, levels[search.level], q);
      LevelAt(nodes, search.level, levels[search.level], q + 1);
      MorePassed(nodes, search.x, nodes, nodes[search.x].next[search.level].id);
    }
  }

  lemma LoadMakesProgress(s: State, r: nat)
    requires Inv(s) && Enabled(s, ReaderLoad(r)) && Apply(s, ReaderLoad(r)).readers[r].Searching?
    ensures var old_, new_ := s.readers[r].search, Apply(s, ReaderLoad(r)).readers[r].search;
            old_.x < |s.nodes| && new_.x < |s.nodes| &&
            new_.level + |Passed(s.nodes, old_.x)| + 1 <= old_.level + |Passed(s.nodes, new_.x)|
  {
    hide ListOk, SearchOk, Passed;
    ReaderIs(s, r);
    RoundMakesProgress(s.nodes, s.levels, s.maxHeight, s.readers[r].search);
  }

  lemma SameReader(s: State, a: Step, r: nat)
    requires Enabled(s, a) && a != ReaderLoad(r) && r < |s.readers| && s.readers[r].Searching?
    ensures r < |Apply(s, a).readers| && Apply(s, a).readers[r] == s.readers[r]
  {
  }

  /** One step of the run, seen by a search that goes on through it. */
  lemma SearchGoesOn(s: State, a: Step, s': State, r: nat)
    requires Inv(s) && Enabled(s, a) && s' == Apply(s, a) && Kept(s, s')
    requires r < |s.readers| && s.readers[r].Searching? && r < |s'.readers| && s'.readers[r].Searching?
    ensures s'.readers[r].search.level + |Passed(s.nodes, s.readers[r].search.x)| + (if a == ReaderLoad(r) then 1 else 0)
         <= s.readers[r].search.level + |Passed(s'.nodes, s'.readers[r].search.x)|
  {
    if a == ReaderLoad(r) {
      LoadMakesProgress(s, r);
    } else {
      SameReader(s, a, r);
      assert ReaderOk(s.nodes, s.levels, s.readers[r]);
      MorePassed(s.nodes, s.readers[r].search.x, s'.nodes, s.readers[r].search.x);
    }
  }

  /** Since it began, a search has made at most as many loads as it left levels and passed keys. */
  lemma {:induction false} LoadsAreBounded(states: seq<State>, steps: seq<Step>, i: nat, j: nat, r: nat)
    requires Run(states, steps) && i < j < |states| && i < |steps| && steps[i].BeginSearch? && steps[i].r == r
    requires forall k :: i < k <= j ==> r < |states[k].readers| && states[k].readers[r].Searching?
    ensures j <= |steps|
    ensures Loads(steps, i + 1, j, r) + states[j].readers[r].search.level
         <= MAX_HEIGHT - 1 + |Passed(states[j].nodes, states[j].readers[r].search.x)|
    decreases j
  {
    hide Inv, Kept, Enabled, Passed, Run;
    RunStep(states, steps, j);
    if j == i + 1 {
      SearchBegins(states[i], steps[i], r);
    } else {
      LoadsAreBounded(states, steps, i, j - 1, r);
      SearchGoesOn(states[j - 1], steps[j - 1], states[j], r);
    }
  }

  lemma SearchBegins(s: State, a: Step, r: nat)
    requires Inv(s) && Enabled(s, a) && a.BeginSearch? && a.r == r
    ensures Apply(s, a).readers[r].search.level <= MAX_HEIGHT - 1 && Apply(s, a).readers[r].search.x == HEAD
  {
  }

  /** A search returns within a bounded number of its own loads: while it still runs, the loads it has made are fewer
      than the levels and the nodes there are, whatever the writer does meanwhile. */
  lemma SearchesEnd(states: seq<State>, steps: seq<Step>, i: nat, j: nat, r: nat)
    requires Run(states, steps) && i < j < |states| && i < |steps| && steps[i].BeginSearch? && steps[i].r == r
    requires forall k :: i < k <= j ==> r < |states[k].readers| && states[k].readers[r].Searching?
    ensures j <= |steps| && |states[j].nodes| > 0 && Loads(steps, i + 1, j, r) <= MAX_HEIGHT - 1 + |states[j].nodes| - 1
  {
    LoadsAreBounded(states, steps, i, j, r);
    FewerThan(Passed(states[j].nodes, states[j].readers[r].search.x), |states[j].nodes|);
    RunKeepsInv(states, steps, j);
    HeadLinked(states[j], 0);
  }

  // ----- Iterators that walk while the writer inserts

  ghost predicate InRange(from: From, k: Key) {
    from.At? ==> from.key <= k
  }

  /** What an iterator that began with these keys in the list has listed: all of them from its start up to where it is,
      and only keys that are in the list. */
  ghost predicate ListedSince(begun: set<Key>, s: State, reader: Reader) {
    match reader
    case Walking(from, x, listed) =>
      x < |s.nodes| && (forall k :: k in begun && InRange(from, k) && x != HEAD && k <= s.nodes[x].key ==> k in listed) &&
      (forall k :: k in listed ==> k in Contents(s))
    case Walked(from, listed) =>
      (forall k :: k in begun && InRange(from, k) ==> k in listed) && (forall k :: k in listed ==> k in Contents(s))
    case _ => false
  }

  lemma WalkLoadLists(s: State, r: nat, begun: set<Key>)
    requires Inv(s) && Enabled(s, WalkLoad(r)) && begun <= Contents(s) && ListedSince(begun, s, s.readers[r])
    ensures ListedSince(begun, Apply(s, WalkLoad(r)), Apply(s, WalkLoad(r)).readers[r])
    ensures Apply(s, WalkLoad(r)).readers[r].from == s.readers[r].from
  {
    hide InRange;
    var x, listed := s.readers[r].x, s.readers[r].listed;
    assert ReaderOk(s.nodes, s.levels, s.readers[r]);
    WalkGoesOn(s.nodes, s.levels, s.maxHeight, x, listed);
    if s.nodes[x].next[0].To? {
      NextIsKey(s, x);
    }
    hide Inv, Keys;
  }

  lemma NextIsKey(s: State, x: nat)
    requires Inv(s) && x in s.levels[0] && Loadable(s.nodes, x, 0) && s.nodes[x].next[0].To?
    ensures s.nodes[s.nodes[x].next[0].id].key in Contents(s)
  {
    assert LevelOk(s.nodes, 0, s.levels[0]);
    var q := SearchLoads(s.nodes, s.levels, s.maxHeight, Search(End, x, 0));
    KeyAt(s.nodes, s.levels, q + 1);
  }

  lemma WalkWaits(s: State, a: Step, s': State, r: nat, begun: set<Key>)
    requires Inv(s) && Enabled(s, a) && s' == Apply(s, a) && Kept(s, s') && Contents(s) <= Contents(s') && a != WalkLoad(r)
    requires r < |s.readers| && s.readers[r].Walking? && ListedSince(begun, s, s.readers[r])
    ensures r < |s'.readers| && s'.readers[r] == s.readers[r] && ListedSince(begun, s', s'.readers[r])
  {
    hide Inv, Contents, InRange;
  }

  /** Steps that start a walk of reader r. */
  predicate StartsWalk(a: Step, r: nat) {
    a == BeginWalk(r) || a == WalkOn(r)
  }

  lemma {:induction false} WalkLists(states: seq<State>, steps: seq<Step>, i: nat, j: nat, r: nat)
    requires Run(states, steps) && i < j < |states| && i < |steps| && StartsWalk(steps[i], r)
    requires forall k :: i < k < j ==> r < |states[k].readers| && states[k].readers[r].Walking?
    ensures r < |states[j].readers| && ListedSince(Contents(states[i]), states[j], states[j].readers[r])
    ensures r < |states[i + 1].readers| && states[i + 1].readers[r].Walking?
    ensures states[j].readers[r].from == states[i + 1].readers[r].from
    decreases j
  {
    hide Inv, Kept, ListedSince, Contents, Run;
    RunStep(states, steps, j);
    if j == i + 1 {
      WalkBegins(states[i], steps[i], r);
    } else {
      WalkLists(states, steps, i, j - 1, r);
      ContentsGrow(states, steps, i, j - 1);
      ContentsGrow(states, steps, j - 1, j);
      if steps[j - 1] == WalkLoad(r) {
        WalkLoadLists(states[j - 1], r, Contents(states[i]));
      } else {
        WalkWaits(states[j - 1], steps[j - 1], states[j], r, Contents(states[i]));
      }
    }
  }

  lemma WalkBegins(s: State, a: Step, r: nat)
    requires Inv(s) && Enabled(s, a) && StartsWalk(a, r)
    ensures r < |Apply(s, a).readers| && Apply(s, a).readers[r].Walking?
    ensures ListedSince(Contents(s), Apply(s, a), Apply(s, a).readers[r])
    ensures a == WalkOn(r) ==> Apply(s, a).readers[r].from == At(s.nodes[s.readers[r].result.id].key)
  {
    HeadLinked(s, 0);
    if a == WalkOn(r) {
      assert ReaderOk(s.nodes, s.levels, s.readers[r]);
      assert LevelOk(s.nodes, 0, s.levels[0]);
      KeyAt(s.nodes, s.levels, IndexOf(s.levels[0], s.readers[r].result.id));
    }
  }

  /** An iterator that walks from `SeekToFirst` with `Next` while the writer inserts lists keys in strictly increasing
      order, misses no key that was in the list when it started, and lists only keys that are in the list when it ends. */
  lemma WalksAreComplete(states: seq<State>, steps: seq<Step>, i: nat, j: nat, r: nat)
    requires Run(states, steps) && i < j < |states| && i < |steps| && steps[i] == BeginWalk(r)
    requires forall k :: i < k < j ==> r < |states[k].readers| && states[k].readers[r].Walking?
    requires r < |states[j].readers| && states[j].readers[r].Walked?
    ensures Increasing(states[j].readers[r].listed)
    ensures forall k :: k in Contents(states[i]) ==> k in states[j].readers[r].listed
    ensures forall k :: k in states[j].readers[r].listed ==> k in Contents(states[j])
  {
    WalkLists(states, steps, i, j, r);
    RunKeepsInv(states, steps, j);
    RunStep(states, steps, i + 1);
    assert ReaderOk(states[j].nodes, states[j].levels, states[j].readers[r]);
    hide Inv, Run;
  }

  lemma {:induction false} KeysAreFixed(states: seq<State>, steps: seq<Step>, i: nat, j: nat, x: nat)
    requires Run(states, steps) && i <= j < |states| && x < |states[i].nodes|
    ensures x < |states[j].nodes| && states[j].nodes[x].key == states[i].nodes[x].key
    decreases j
  {
    hide Inv, Run, Enabled, Apply;
    if i < j {
      KeysAreFixed(states, steps, i, j - 1, x);
      RunStep(states, steps, j);
    }
  }

  /** An iterator that goes on with `Next` from the node a `Seek` returned, however much later, lists keys in strictly
      increasing order from the target on, and misses none that was in the list when the search returned. */
  lemma SeekWalksAreComplete(states: seq<State>, steps: seq<Step>, a: nat, i: nat, j: nat, r: nat)
    requires Run(states, steps) && a < i < j < |states| && i < |steps| && steps[a] == ReaderLoad(r) && steps[i] == WalkOn(r)
    requires forall k :: a < k <= i ==> r < |states[k].readers| && states[k].readers[r] == states[i].readers[r]
    requires states[i].readers[r].Returned?
    requires forall k :: i < k < j ==> r < |states[k].readers| && states[k].readers[r].Walking?
    requires r < |states[j].readers| && states[j].readers[r].Walked?
    ensures states[i].readers[r].goal.AtOrAfter? && Increasing(states[j].readers[r].listed)
    ensures forall k :: k in Contents(states[a + 1]) && states[i].readers[r].goal.key <= k ==> k in states[j].readers[r].listed
    ensures forall k :: k in states[j].readers[r].listed ==> k in Contents(states[j]) && states[i].readers[r].goal.key <= k
  {
    hide Inv, Run, Enabled, Apply, Contents;
    assert states[a + 1].readers[r] == states[i].readers[r];
    SeekWalkStarts(states, steps, a, i, r);
    WalkLists(states, steps, i, j, r);
    RunKeepsInv(states, steps, j);
    ReaderIs(states[j], r);
    ListedFrom(states[j].readers[r].from, states[j].readers[r].listed);
  }

  lemma ListedFrom(from: From, listed: seq<Key>)
    requires StartedAt(from, listed) && Increasing(listed)
    ensures forall k :: k in listed ==> InRange(from, k)
  {
  }

  /** The walk starts at the first key of the list at or after the target. */
  lemma SeekWalkStarts(states: seq<State>, steps: seq<Step>, a: nat, i: nat, r: nat)
    requires Run(states, steps) && a < i < |steps| && i + 1 < |states| && steps[a] == ReaderLoad(r) && steps[i] == WalkOn(r)
    requires r < |states[a + 1].readers| && r < |states[i].readers| && states[a + 1].readers[r] == states[i].readers[r]
    requires states[i].readers[r].Returned?
    ensures r < |states[i + 1].readers| && states[i + 1].readers[r].Walking?
    ensures states[i].readers[r].goal.AtOrAfter? && Contents(states[a + 1]) <= Contents(states[i])
    ensures states[i + 1].readers[r].from.At? && states[i].readers[r].goal.key <= states[i + 1].readers[r].from.key
    ensures var goal, from := states[i].readers[r].goal, states[i + 1].readers[r].from;
            forall k :: k in Contents(states[a + 1]) && InRange(At(goal.key), k) ==> InRange(from, k)
  {
    hide Inv, Run;
    RunStep(states, steps, i + 1);
    SearchesAreExact(states, steps, a);
    KeysAreFixed(states, steps, a + 1, i, states[i].readers[r].result.id);
    ContentsGrow(states, steps, a + 1, i);
    WalkBegins(states[i], steps[i], r);
    hide Contents;
  }

  /** `Prev` and `SeekToLast` under concurrent inserts: such a search ends at or after every key that was there before
      it returned and is one it may return, and at a key it may return. */
  lemma BackwardSearchesMissNothing(states: seq<State>, steps: seq<Step>, i: nat, j: nat, k: Key)
    requires Run(states, steps) && i <= j < |steps| && steps[j].ReaderLoad? && k in Contents(states[i])
    requires var reader := states[j + 1].readers[steps[j].r];
             reader.Returned? && !reader.goal.AtOrAfter? && (reader.goal.Before? ==> k < reader.goal.key)
    ensures var reader := states[j + 1].readers[steps[j].r];
            reader.result.To? && HEAD != reader.result.id < |states[j + 1].nodes| &&
            k <= states[j + 1].nodes[reader.result.id].key &&
            (reader.goal.Before? ==> states[j + 1].nodes[reader.result.id].key < reader.goal.key)
  {
    ContentsGrow(states, steps, i, j + 1);
    SearchesAreExact(states, steps, j);
  }
}
