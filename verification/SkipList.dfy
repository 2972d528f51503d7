/** The skip list of memtable/skiplist.h as it runs sequentially: a heap of nodes changed in place.

    Every store of `Insert` is a step of the protocol in `SkipListSteps`, so the class inherits that protocol's
    invariant, and the sorted set it stands for is read off level 0. */
module SkipList {
  import opened S = SkipListSteps

  /** The content of one link field; `Unset` is memory not yet stored to. */
  datatype Pointer = PUnset | PNull | PTo(node: SkipNode)

  class SkipNode {
    const key: Key
    ghost const id: nat
    var next: seq<Pointer>

    /** `NewNode`: the links are not initialised. */
    constructor (key: Key, height: nat, ghost id: nat)
      ensures this.key == key && this.id == id && next == seq(height, _ => PUnset)
    {
      this.key := key;
      this.id := id;
      this.next := seq(height, _ => PUnset);
    }
  }

  ghost function LinkOf(p: Pointer): Link {
    match p
    case PUnset => Unset
    case PNull => Null
    case PTo(n) => To(n.id)
  }

  ghost function NodeOf(key: Key, next: seq<Pointer>): Node {
    Node(key, seq(|next|, j requires 0 <= j < |next| => LinkOf(next[j])))
  }

  ghost function MemoryOf(nodes: seq<SkipNode>): (m: seq<Node>)
    reads nodes
    ensures |m| == |nodes|
  {
    seq(|nodes|, i requires 0 <= i < |nodes| reads nodes => NodeOf(nodes[i].key, nodes[i].next))
  }

  class SkipListImpl {
    const head: SkipNode
    var maxHeight: nat
    ghost var all: seq<SkipNode>
    ghost var levels: seq<seq<nat>>

    /** The memory, as the protocol sees it. */
    ghost function Memory(): (m: seq<Node>)
      reads `all, all
      ensures |m| == |all|
    {
      MemoryOf(all)
    }

    ghost function View(w: Writer): State
      reads this, all
    {
      State(Memory(), maxHeight, w, [], levels)
    }

    /** Nodes carry their position, and pointers lead to nodes of this list. */
    ghost predicate Formed()
      reads `all, all
    {
      |all| > 0 && all[0] == head &&
      (forall i :: 0 <= i < |all| ==> all[i].id == i) &&
      (forall i, j :: 0 <= i < |all| && 0 <= j < |all[i].next| && all[i].next[j].PTo? ==> all[i].next[j].node in all)
    }

    ghost predicate Valid()
      reads this, all
    {
      Formed() && Inv(View(Idle))
    }

    /** The set of keys the list holds. */
    ghost function Keys(): set<Key>
      reads this, all
    {
      Contents(View(Idle))
    }

    constructor ()
      ensures Valid() && Keys() == {} && fresh(all)
    {
      var h := new SkipNode(0.0, MAX_HEIGHT, 0);
      var i := 0;
      while i < MAX_HEIGHT
        invariant 0 <= i <= MAX_HEIGHT && |h.next| == MAX_HEIGHT
        invariant forall j :: 0 <= j < i ==> h.next[j] == PNull
      {
        h.next := h.next[i := PNull];
        i := i + 1;
      }
      head := h;
      maxHeight := 1;
      all := [h];
      levels := seq(MAX_HEIGHT, _ => [HEAD]);
      new;
      assert Memory()[0].next == seq(MAX_HEIGHT, _ => Null);
      InitialInv(View(Idle));
    }

    /** A search standing at node x. */
    ghost predicate Standing(goal: Goal, x: SkipNode, level: nat)
      reads this, all
    {
      x in all && SearchOk(Memory(), levels, Search(goal, x.id, level))
    }

    /** The nodes of x's level that come after x. */
    ghost function Ahead(x: SkipNode, level: nat): nat
      reads this, all
    {
      if level < |levels| && x.id in levels[level] then |levels[level]| - IndexOf(levels[level], x.id) else 0
    }

    lemma NodeAt(x: SkipNode)
      requires Formed() && x in all
      ensures x.id < |all| && all[x.id] == x && Memory()[x.id] == NodeOf(x.key, x.next)
    {
      var i :| 0 <= i < |all| && all[i] == x;
    }

    /** A search at x loads a link that was stored, and that leads to a node of this list or nowhere. */
    lemma LoadAt(goal: Goal, x: SkipNode, level: nat)
      requires Valid() && Standing(goal, x, level)
      ensures level < |x.next| && x.next[level] != PUnset
      ensures Loadable(Memory(), x.id, level) && Memory()[x.id].next[level] == LinkOf(x.next[level])
      ensures x.next[level].PTo? ==> x.next[level].node in all && Memory()[x.next[level].node.id].key == x.next[level].node.key
    {
      var q := SearchLoads(Memory(), levels, maxHeight, Search(goal, x.id, level));
      NodeAt(x);
      if x.next[level].PTo? {
        NodeAt(x.next[level].node);
      }
    }

    /** Where one round of a search at x may go. */
    lemma RoundAt(goal: Goal, x: SkipNode, level: nat)
      requires Valid() && Standing(goal, x, level)
      ensures x in all && level < |x.next| && x.next[level] != PUnset && (x.next[level].PTo? ==> x.next[level].node in all)
      ensures var next := x.next[level];
              if next.PTo? && (goal.End? || next.node.key < goal.key) then
                Standing(goal, next.node, level) && Ahead(next.node, level) < Ahead(x, level)
              else level > 0 ==> Standing(goal, x, level - 1)
    {
      LoadAt(goal, x, level);
      var search := Search(goal, x.id, level);
      SearchRoundKeepsOk(Memory(), levels, maxHeight, search);
      if x.next[level].PTo? {
        MoveGetsCloser(Memory(), levels, maxHeight, search);
      }
    }

    /** The answer a search that stops at x gives, over the set of keys. */
    lemma StopAt(goal: Goal, x: SkipNode)
      requires Valid() && Standing(goal, x, 0) && |x.next| > 0
      requires x.next[0].PTo? ==> !goal.End? && x.next[0].node in all && goal.key <= x.next[0].node.key
      ensures Answers(Memory(), levels, goal, if goal.AtOrAfter? then LinkOf(x.next[0]) else To(x.id))
      ensures x.id < |Memory()| && Memory()[x.id].key == x.key
      ensures x.next[0].PTo? ==> x.next[0].node.id < |Memory()| && Memory()[x.next[0].node.id].key == x.next[0].node.key
    {
      LoadAt(goal, x, 0);
      NodeAt(x);
      if x.next[0].PTo? {
        NodeAt(x.next[0].node);
      }
      SearchStopsRight(Memory(), levels, maxHeight, Search(goal, x.id, 0));
    }

    lemma StartAtHead(goal: Goal)
      requires Valid()
      ensures 1 <= maxHeight <= MAX_HEIGHT && Standing(goal, head, maxHeight - 1)
    {
      HeadLinked(View(Idle), maxHeight - 1);
      NodeAt(head);
    }

    /** A node of the list proper: linked at level 0, and not the head. */
    ghost predicate Linked(r: SkipNode)
      reads this, all
    {
      r in all && r != head && levels != [] && r.id in levels[0] && r.key in Keys()
    }

    /** r is the node with the least key at or after `key`, or null if there is none. */
    ghost predicate FirstAtOrAfter(r: SkipNode?, key: Key)
      reads this, all
    {
      if r == null then forall k :: k in Keys() ==> k < key
      else Linked(r) && key <= r.key && forall k :: k in Keys() && key <= k ==> r.key <= k
    }

    /** r is the node with the greatest key before `key`, or the head if there is none. */
    ghost predicate LastBefore(r: SkipNode, key: Key)
      reads this, all
    {
      if r == head then forall k :: k in Keys() ==> key <= k
      else Linked(r) && r.key < key && forall k :: k in Keys() && k < key ==> k <= r.key
    }

    /** r is the node with the greatest key, or the head if there is none. */
    ghost predicate LastOfAll(r: SkipNode)
      reads this, all
    {
      if r == head then Keys() == {} else Linked(r) && forall k :: k in Keys() ==> k <= r.key
    }

    lemma NotHead(x: SkipNode)
      requires Formed() && x in all && x.id != HEAD
      ensures x != head
    {
      NodeAt(x);
    }

    lemma StopAtOrAfter(key: Key, x: SkipNode)
      requires Valid() && Standing(AtOrAfter(key), x, 0) && |x.next| > 0 && x.next[0] != PUnset
      requires x.next[0].PTo? ==> x.next[0].node in all && key <= x.next[0].node.key
      ensures FirstAtOrAfter(if x.next[0].PTo? then x.next[0].node else null, key)
    {
      StopAt(AtOrAfter(key), x);
      if x.next[0].PTo? {
        NotHead(x.next[0].node);
      }
    }

    lemma StopBefore(key: Key, x: SkipNode)
      requires Valid() && Standing(Before(key), x, 0) && |x.next| > 0 && x.next[0] != PUnset
      requires x.next[0].PTo? ==> x.next[0].node in all && key <= x.next[0].node.key
      ensures LastBefore(x, key)
    {
      StopAt(Before(key), x);
      NodeAt(head);
      NodeAt(x);
    }

    lemma StopAtEnd(x: SkipNode)
      requires Valid() && Standing(End, x, 0) && |x.next| > 0 && x.next[0] == PNull
      ensures LastOfAll(x)
    {
      StopAt(End, x);
      NodeAt(head);
      NodeAt(x);
    }

    lemma LeftFromTop(prev: seq<SkipNode>, key: Key)
      requires prev != [] ==> |prev| >= maxHeight
      ensures LeftFrom(prev, prev, maxHeight, key)
    {
    }

    lemma FirstInOrder()
      requires Valid()
      ensures |head.next| > 0 && head.next[0] != PUnset
      ensures if head.next[0].PTo? then Linked(head.next[0].node) && forall k :: k in Keys() ==> head.next[0].node.key <= k
              else Keys() == {}
    {
      hide Valid, Keys, Ahead;
      forall key: Key
        ensures Standing(AtOrAfter(key), head, 0)
      {
        HeadStands(AtOrAfter(key));
      }
      HeadStands(End);
      RoundAt(End, head, 0);
      if head.next[0].PTo? {
        var first := head.next[0].node;
        StopAtOrAfter(first.key, head);
        forall k | k in Keys()
          ensures first.key <= k
        {
          if k < first.key {
            StopAtOrAfter(k, head);
          }
        }
      } else {
        forall k | k in Keys()
          ensures false
        {
          StopAtOrAfter(k, head);
        }
      }
    }

    lemma HeadStands(goal: Goal)
      requires Valid()
      ensures Standing(goal, head, 0)
    {
      HeadLinked(View(Idle), 0);
      NodeAt(head);
    }

    /** r is the node with the least key after `key`, or null if there is none. */
    ghost predicate FirstAfter(r: SkipNode?, key: Key)
      reads this, all
    {
      if r == null then forall k :: k in Keys() ==> k <= key
      else Linked(r) && key < r.key && forall k :: k in Keys() && key < k ==> r.key <= k
    }

    lemma StandsAtNode(x: SkipNode, key: Key)
      requires Valid() && Linked(x) && x.key < key
      ensures Standing(AtOrAfter(key), x, 0)
    {
      NodeAt(x);
    }

    lemma NextExists(x: SkipNode)
      requires Valid() && Linked(x)
      ensures |x.next| > 0 && x.next[0] != PUnset
      ensures x.next[0].PTo? ==> x.next[0].node in all && x.key < x.next[0].node.key &&
                                 Ahead(x.next[0].node, 0) < Ahead(x, 0)
    {
      NodeAt(x);
      RoundAt(End, x, 0);
      LoadAt(End, x, 0);
      var q := SearchLoads(Memory(), levels, maxHeight, Search(End, x.id, 0));
      assert LevelOk(Memory(), 0, levels[0]);
      LevelAt(Memory(), 0, levels[0], q);
    }

    /** The successor of a node on level 0 is the next key in order. */
    lemma NextInOrder(x: SkipNode)
      requires Valid() && Linked(x)
      ensures |x.next| > 0 && x.next[0] != PUnset
      ensures FirstAfter(if x.next[0].PTo? then x.next[0].node else null, x.key)
      ensures x.next[0].PTo? ==> Ahead(x.next[0].node, 0) < Ahead(x, 0)
    {
      hide Valid, Keys, Ahead, Standing;
      NextExists(x);
      if x.next[0].PTo? {
        StandsAtNode(x, x.next[0].node.key);
        StopAtOrAfter(x.next[0].node.key, x);
      }
      forall k | k in Keys() && x.key < k
        ensures x.next[0].PTo? && x.next[0].node.key <= k
      {
        StandsAtNode(x, k);
        if x.next[0].PNull? || k <= x.next[0].node.key {
          StopAtOrAfter(k, x);
        }
      }
    }

    // ----- Searches

    ghost function Ids(nodes: seq<SkipNode>): (ids: seq<nat>)
      ensures |ids| == |nodes| && forall j :: 0 <= j < |ids| ==> ids[j] == nodes[j].id
    {
      seq(|nodes|, j requires 0 <= j < |nodes| => nodes[j].id)
    }

    /** The predecessors recorded for the levels from lo up are right for a new key. */
    ghost predicate Recorded(prev: seq<SkipNode>, lo: nat, key: Key)
      reads this, all
    {
      |prev| == MAX_HEIGHT && (forall n :: n in prev ==> n in all) &&
      PrevOk(Memory(), levels, Ids(prev), lo, maxHeight, key)
    }

    /** A search for `key` left level j at node n. */
    ghost predicate LeftAt(n: SkipNode, j: nat, key: Key)
      reads this, all
    {
      Standing(AtOrAfter(key), n, j) && n in all && j < |n.next| &&
      (n.next[j].PTo? ==> key <= n.next[j].node.key)
    }

    /** `prev` holds where the search left the levels from lo up, and its old content above the tallest level. */
    ghost predicate LeftFrom(prev: seq<SkipNode>, prevIn: seq<SkipNode>, lo: nat, key: Key)
      reads this, all
    {
      |prev| == |prevIn| &&
      forall j :: lo <= j < |prev| ==> if j < maxHeight then LeftAt(prev[j], j, key) else prev[j] == prevIn[j]
    }

    lemma LeaveLevel(prev: seq<SkipNode>, prevIn: seq<SkipNode>, level: nat, x: SkipNode, key: Key)
      requires LeftFrom(prev, prevIn, level + 1, key) && LeftAt(x, level, key) && level < maxHeight
      requires prevIn != [] ==> level < |prevIn|
      ensures LeftFrom(if prev == [] then prev else prev[level := x], prevIn, level, key)
    {
    }

    /** The caller's predecessor array is passed in and handed back; the empty sequence is the null pointer. */
    method FindGreaterOrEqual(key: Key, prevIn: seq<SkipNode>) returns (r: SkipNode?, prev: seq<SkipNode>)
      requires Valid() && (prevIn != [] ==> |prevIn| == MAX_HEIGHT)
      ensures FirstAtOrAfter(r, key)
      ensures LeftFrom(prev, prevIn, 0, key)
    {
      hide Valid, Standing, Ahead, FirstAtOrAfter, LastBefore, LastOfAll, LeftFrom;
      var x, level := head, maxHeight - 1;
      prev := prevIn;
      StartAtHead(AtOrAfter(key));
      LeftFromTop(prev, key);
      while true
        invariant 0 <= level < maxHeight <= MAX_HEIGHT && Standing(AtOrAfter(key), x, level)
        invariant |prev| == |prevIn| && LeftFrom(prev, prevIn, level + 1, key)
        decreases level, Ahead(x, level)
      {
        RoundAt(AtOrAfter(key), x, level);
        var next := x.next[level];
        if next.PTo? && next.node.key < key {
          x := next.node;
        } else {
          LeaveLevel(prev, prevIn, level, x, key);
          if prev != [] {
            prev := prev[level := x];
          }
          if level == 0 {
            StopAtOrAfter(key, x);
            return if next.PTo? then next.node else null, prev;
          }
          level := level - 1;
        }
      }
    }

    /** Where the search for a new key left the levels is where the key belongs. */
    lemma LeftIsRecorded(prev: seq<SkipNode>, key: Key)
      requires Valid() && key !in Keys() && |prev| == MAX_HEIGHT && forall n :: n in prev ==> n in all
      requires forall j :: 0 <= j < maxHeight ==> LeftAt(prev[j], j, key)
      ensures Recorded(prev, 0, key)
    {
      forall j | 0 <= j < maxHeight
        ensures Pred(Memory(), levels[j], prev[j].id, key)
      {
        assert LeftAt(prev[j], j, key);
        LoadAt(AtOrAfter(key), prev[j], j);
        StopIsPred(Memory(), levels, maxHeight, Search(AtOrAfter(key), prev[j].id, j));
      }
    }

    method FindLessThan(key: Key) returns (r: SkipNode)
      requires Valid()
      ensures LastBefore(r, key)
    {
      hide Valid, Standing, Ahead, FirstAtOrAfter, LastBefore, LastOfAll, LeftFrom;
      var x, level := head, maxHeight - 1;
      StartAtHead(Before(key));
      while true
        invariant 0 <= level < maxHeight && Standing(Before(key), x, level)
        decreases level, Ahead(x, level)
      {
        RoundAt(Before(key), x, level);
        var next := x.next[level];
        if next.PNull? || next.node.key >= key {
          if level == 0 {
            StopBefore(key, x);
            return x;
          }
          level := level - 1;
        } else {
          x := next.node;
        }
      }
    }

    method FindLast() returns (r: SkipNode)
      requires Valid()
      ensures LastOfAll(r)
    {
      hide Valid, Standing, Ahead, FirstAtOrAfter, LastBefore, LastOfAll, LeftFrom;
      var x, level := head, maxHeight - 1;
      StartAtHead(End);
      while true
        invariant 0 <= level < maxHeight && Standing(End, x, level)
        decreases level, Ahead(x, level)
      {
        RoundAt(End, x, level);
        var next := x.next[level];
        if next.PNull? {
          if level == 0 {
            StopAtEnd(x);
            return x;
          }
          level := level - 1;
        } else {
          x := next.node;
        }
      }
    }

    method Contains(key: Key) returns (r: bool)
      requires Valid()
      ensures r <==> key in Keys()
    {
      var x, _ := FindGreaterOrEqual(key, []);
      r := x != null && x.key == key;
    }

    // ----- Insertion

    /** `SetNext`: one store to one link field. */
    method SetNext(n: SkipNode, i: nat, p: Pointer)
      requires Formed() && n in all && i < |n.next| && (p.PTo? ==> p.node in all)
      modifies n
      ensures Formed() && n.id < |Memory()| && i < |old(Memory())[n.id].next|
      ensures Memory() == S.SetNext(old(Memory()), n.id, i, LinkOf(p))
    {
      NodeAt(n);
      ghost var before := Memory();
      n.next := n.next[i := p];
      assert forall j :: 0 <= j < |all| && j != n.id ==> all[j] != n;
      assert Memory()[n.id].next == before[n.id].next[i := LinkOf(p)];
    }

    /** The state of the protocol while node x is being linked, about to link level i. */
    ghost function LinkingState(x: SkipNode, prev: seq<SkipNode>, height: nat, i: nat): State
      reads this, all
    {
      View(if i < height then Linking(x.key, height, Ids(prev), x.id, i) else Idle)
    }

    lemma LinkedIsValid(x: SkipNode, prev: seq<SkipNode>, height: nat)
      requires Formed() && Inv(LinkingState(x, prev, height, height))
      ensures Valid()
    {
    }

    lemma LinkingReady(x: SkipNode, prev: seq<SkipNode>, height: nat, i: nat)
      requires Formed() && x in all && i < height && Inv(LinkingState(x, prev, height, i))
      requires forall n :: n in prev ==> n in all
      ensures i < |prev| && i < |x.next| && prev[i] in all && i < |prev[i].next|
      ensures Memory()[prev[i].id].next[i] == LinkOf(prev[i].next[i]) && prev[i].next[i] != PUnset
      ensures prev[i].next[i].PTo? ==> prev[i].next[i].node in all
    {
      LinkingKept(LinkingState(x, prev, height, i));
      NodeAt(x);
      NodeAt(prev[i]);
    }

    /** The body of the linking loop: x takes over p's link, and p links to x. */
    method LinkAfter(x: SkipNode, p: SkipNode, i: nat)
      requires Formed() && x in all && p in all && i < |x.next| && i < |p.next|
      requires p.next[i].PTo? ==> p.next[i].node in all
      modifies x, p
      ensures Formed() && Memory() == Spliced(old(Memory()), x.id, p.id, i)
    {
      NodeAt(p);
      NodeAt(x);
      ghost var m := Memory();
      SetNext(x, i, p.next[i]);
      assert i < |Memory()[p.id].next|;
      NodeAt(p);
      SetNext(p, i, PTo(x));
    }

    /** One round of the linking loop is two steps of the protocol. */
    method LinkLevel(x: SkipNode, prev: seq<SkipNode>, ghost height: nat, i: nat)
      requires Formed() && x in all && i < height && Inv(LinkingState(x, prev, height, i))
      requires forall n :: n in prev ==> n in all
      modifies `levels, all
      ensures Formed() && Inv(LinkingState(x, prev, height, i + 1))
      ensures Keys() == old(Keys()) + (if i == 0 then {x.key} else {})
    {
      hide ListOk, ReadersOk, WriterOk;
      ghost var s := LinkingState(x, prev, height, i);
      LinkingReady(x, prev, height, i);
      AfterLinkingIs(s);
      LinkAfter(x, prev[i], i);
      levels := AfterLinking(s).levels;
      assert LinkingState(x, prev, height, i + 1) == AfterLinking(s);
    }

    /** Raising `max_height_`, with the head as predecessor on the new levels. */
    method RaiseHeight(key: Key, height: nat, prevIn: seq<SkipNode>) returns (prev: seq<SkipNode>)
      requires Valid() && 1 <= height <= MAX_HEIGHT && Recorded(prevIn, 0, key)
      modifies `maxHeight
      ensures Formed() && Inv(View(Allocating(key, height, Ids(prev)))) && forall n :: n in prev ==> n in all
      ensures Keys() == old(Keys())
    {
      hide ListOk, ReadersOk;
      prev := prevIn;
      ghost var s := View(Raising(key, height, Ids(prevIn)));
      RaisingKept(s);
      if height > maxHeight {
        var i := maxHeight;
        while i < height
          invariant maxHeight <= i <= height && |prev| == MAX_HEIGHT
          invariant forall j :: 0 <= j < MAX_HEIGHT ==> prev[j] == if maxHeight <= j < i then head else prevIn[j]
        {
          prev := prev[i := head];
          i := i + 1;
        }
        NodeAt(head);
        maxHeight := height;
        assert Ids(prev) == ApplyWriter(s).writer.prev;
      }
      assert View(Allocating(key, height, Ids(prev))) == ApplyWriter(s);
    }

    method NewNode(key: Key, height: nat, ghost prev: seq<SkipNode>) returns (x: SkipNode)
      requires Formed() && Inv(View(Allocating(key, height, Ids(prev)))) && height >= 1
      requires forall n :: n in prev ==> n in all
      modifies `all
      ensures Formed() && x.key == key && fresh(x) && all == old(all) + [x] && Inv(LinkingState(x, prev, height, 0))
      ensures Keys() == old(Keys())
    {
      hide ListOk, ReadersOk, WriterOk;
      ghost var s := View(Allocating(key, height, Ids(prev)));
      AllocatingKept(s);
      ContentsChangeAtPublish(s, WriterStep);
      x := new SkipNode(key, height, |all|);
      all := all + [x];
      assert Memory()[|s.nodes|].next == seq(height, _ => Unset);
      assert Memory() == ApplyWriter(s).nodes;
      assert LinkingState(x, prev, height, 0) == ApplyWriter(s);
    }

    /** The search at the start of `Insert`. */
    method Locate(key: Key) returns (prev: seq<SkipNode>)
      requires Valid() && key !in Keys()
      ensures Recorded(prev, 0, key)
    {
      var uninitialised := seq(MAX_HEIGHT, _ => head);
      var _, found := FindGreaterOrEqual(key, uninitialised);
      prev := found;
      assert forall j :: 0 <= j < |prev| ==> prev[j] in all;
      LeftIsRecorded(prev, key);
    }

    /** `Insert`, at the height the random source picked. */
    method Insert(key: Key, height: nat)
      requires Valid() && key !in Keys() && 1 <= height <= MAX_HEIGHT
      modifies this, all
      ensures Valid() && Keys() == old(Keys()) + {key}
      ensures |all| == old(|all|) + 1 && old(all) <= all && fresh(all[|all| - 1])
    {
      hide Inv, Formed, Memory, Recorded, Keys, Valid, LinkingState, View;
      var prev := Locate(key);
      prev := RaiseHeight(key, height, prev);
      var x := NewNode(key, height, prev);
      var i := 0;
      while i < height
        invariant 0 <= i <= height && Formed() && all == old(all) + [x] && x.key == key && fresh(x)
        invariant Inv(LinkingState(x, prev, height, i)) && forall n :: n in prev ==> n in all
        invariant Keys() == old(Keys()) + (if i == 0 then {} else {key})
      {
        LinkLevel(x, prev, height, i);
        i := i + 1;
      }
      LinkedIsValid(x, prev, height);
    }
  }

  ghost function Spliced(m: seq<Node>, x: nat, p: nat, i: nat): seq<Node>
  {
    if x < |m| && p < |m| && i < |m[x].next| && i < |m[p].next| then
      S.SetNext(S.SetNext(m, x, i, m[p].next[i]), p, i, To(x))
    else m
  }

  /** Linking and publishing one level, seen from before the two stores. */
  lemma TwoSteps(s: State)
    requires Inv(s) && s.writer.Linking?
    ensures WriterReady(s) && Inv(ApplyWriter(s)) && WriterReady(ApplyWriter(s)) && Inv(ApplyWriter(ApplyWriter(s)))
    ensures Contents(ApplyWriter(ApplyWriter(s))) == Contents(s) + (if s.writer.i == 0 then {s.writer.key} else {})
  {
    LinkingKept(s);
    PublishingKept(ApplyWriter(s));
    ContentsChangeAtPublish(s, WriterStep);
    ContentsChangeAtPublish(ApplyWriter(s), WriterStep);
  }

  ghost function AfterLinking(s: State): State
    requires Inv(s) && s.writer.Linking?
  {
    TwoSteps(s);
    ApplyWriter(ApplyWriter(s))
  }

  lemma AfterLinkingIs(s: State)
    requires Inv(s) && s.writer.Linking?
    ensures s.writer.i < |s.writer.prev|
    ensures var w, t := s.writer, AfterLinking(s);
            t.nodes == Spliced(s.nodes, w.x, w.prev[w.i], w.i) && t.maxHeight == s.maxHeight && t.readers == s.readers &&
            t.writer == (if w.i + 1 < w.height then Linking(w.key, w.height, w.prev, w.x, w.i + 1) else Idle)
    ensures Inv(AfterLinking(s))
    ensures Contents(AfterLinking(s)) == Contents(s) + (if s.writer.i == 0 then {s.writer.key} else {})
  {
    TwoSteps(s);
  }

  /** `SkipList::Iterator`: a position on level 0, or none. */
  class Iterator {
    const list: SkipListImpl
    var node: SkipNode?

    constructor (list: SkipListImpl)
      ensures this.list == list && node == null
    {
      this.list := list;
      node := null;
    }

    predicate Valid()
      reads this
    {
      node != null
    }

    ghost predicate Positioned()
      reads this, list, list.all
    {
      list.Valid() && (node != null ==> list.Linked(node))
    }

    method Seek(target: Key)
      requires list.Valid()
      modifies this
      ensures Positioned() && list.FirstAtOrAfter(node, target)
    {
      var r, _ := list.FindGreaterOrEqual(target, []);
      node := r;
    }

    method SeekToFirst()
      requires list.Valid()
      modifies this
      ensures Positioned() && (Valid() <==> list.Keys() != {})
      ensures Valid() ==> forall k :: k in list.Keys() ==> node.key <= k
    {
      list.FirstInOrder();
      var p := list.head.next[0];
      node := if p.PTo? then p.node else null;
    }

    method SeekToLast()
      requires list.Valid()
      modifies this
      ensures Positioned() && (Valid() <==> list.Keys() != {})
      ensures Valid() ==> forall k :: k in list.Keys() ==> k <= node.key
    {
      hide SkipListImpl.Valid, SkipListImpl.Keys;
      var r := list.FindLast();
      node := if r == list.head then null else r;
    }

    method Next()
      requires Positioned() && Valid()
      modifies this
      ensures Positioned() && list.FirstAfter(node, old(node.key))
      ensures Valid() ==> list.Ahead(node, 0) < list.Ahead(old(node), 0)
    {
      hide SkipListImpl.Valid, SkipListImpl.Keys, SkipListImpl.Ahead;
      list.NextInOrder(node);
      var p := node.next[0];
      node := if p.PTo? then p.node else null;
    }

    method Prev()
      requires Positioned() && Valid()
      modifies this
      ensures Positioned()
      ensures Valid() ==> node.key < old(node.key) && forall k :: k in list.Keys() && k < old(node.key) ==> k <= node.key
      ensures !Valid() ==> forall k :: k in list.Keys() ==> old(node.key) <= k
    {
      hide SkipListImpl.Valid, SkipListImpl.Keys;
      var r := list.FindLessThan(node.key);
      node := if r == list.head then null else r;
    }
  }

  /** A walk with `SeekToFirst` and `Next` lists exactly the keys of the set, in strictly increasing order. */
  method Walk(list: SkipListImpl) returns (keys: seq<Key>)
    requires list.Valid()
    ensures forall i, j :: 0 <= i < j < |keys| ==> keys[i] < keys[j]
    ensures forall k :: k in keys <==> k in list.Keys()
  {
    hide SkipListImpl.Valid, SkipListImpl.Keys, SkipListImpl.Ahead;
    var it := new Iterator(list);
    it.SeekToFirst();
    keys := [];
    while it.Valid()
      invariant it.list == list && it.Positioned()
      invariant forall i, j :: 0 <= i < j < |keys| ==> keys[i] < keys[j]
      invariant forall k :: k in keys <==> k in list.Keys() && (it.Valid() ==> k < it.node.key)
      decreases if it.Valid() then list.Ahead(it.node, 0) + 1 else 0
    {
      assert forall i :: 0 <= i < |keys| ==> keys[i] in keys;
      keys := keys + [it.node.key];
      it.Next();
    }
  }

  /** Inserting distinct keys in any order and at any heights, then walking the list, sorts them. */
  method InsertAll(keys: seq<Key>, heights: seq<nat>) returns (list: SkipListImpl, sorted: seq<Key>)
    requires |heights| == |keys| && forall i :: 0 <= i < |heights| ==> 1 <= heights[i] <= MAX_HEIGHT
    requires forall i, j :: 0 <= i < j < |keys| ==> keys[i] != keys[j]
    ensures list.Valid() && forall k :: k in list.Keys() <==> k in keys
    ensures forall i, j :: 0 <= i < j < |sorted| ==> sorted[i] < sorted[j]
    ensures forall k :: k in sorted <==> k in keys
  {
    hide SkipListImpl.Valid, SkipListImpl.Keys;
    list := new SkipListImpl();
    var n := 0;
    while n < |keys|
      invariant 0 <= n <= |keys| && list.Valid() && fresh(list) && fresh(list.all)
      invariant forall k :: k in list.Keys() <==> k in keys[..n]
    {
      assert forall k :: k in keys[..n + 1] <==> k in keys[..n] || k == keys[n] by {
        assert keys[..n + 1] == keys[..n] + [keys[n]];
      }
      list.Insert(keys[n], heights[n]);
      n := n + 1;
    }
    assert keys[..n] == keys;
    sorted := Walk(list);
  }
}
