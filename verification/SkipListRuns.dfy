/** Whole operations on the skip list under concurrency, from the call to the return: what an `Insert` has done when the
    writer is idle again, what a search answers to the goal it was called with, and what a walk lists, in any interleaving
    with everything else. */
module SkipListRuns {
  import opened Sets
  import opened SkipListSteps

  // ----- Calls are always possible

  /** In every state of a run the writer can insert any key that is not there when it is idle, and go on when it is not. */
  lemma WriterCanStep(states: seq<State>, steps: seq<Step>, i: nat, key: Key, height: nat)
    requires Run(states, steps) && i < |states| && 1 <= height <= MAX_HEIGHT
    ensures states[i].writer.Idle? && key !in Contents(states[i]) ==> Enabled(states[i], BeginInsert(key, height))
    ensures !states[i].writer.Idle? ==> Enabled(states[i], WriterStep)
  {
    RunKeepsInv(states, steps, i);
    WriterKept(states[i]);
    hide Contents;
  }

  /** A reader can begin any search or walk when it is in none, and go on when it is in one. */
  lemma ReaderCanStep(states: seq<State>, steps: seq<Step>, i: nat, r: nat, goal: Goal)
    requires Run(states, steps) && i < |states| && r < |states[i].readers|
    ensures !Busy(states[i].readers[r]) ==> Enabled(states[i], BeginSearch(r, goal)) && Enabled(states[i], BeginWalk(r))
    ensures states[i].readers[r].Searching? ==> Enabled(states[i], ReaderLoad(r))
    ensures states[i].readers[r].Walking? ==> Enabled(states[i], WalkLoad(r))
  {
    hide Run, Inv;
    NoUnsetLinkFollowed(states, steps, i);
    RunKeepsInv(states, steps, i);
    ReaderIs(states[i], r);
  }

  // ----- Insert

  /** Node x has the key, and is linked at exactly the levels below its height. */
  ghost predicate LinkedBelowHeight(s: State, x: nat, key: Key, height: nat) {
    HEAD < x < |s.nodes| && s.nodes[x].key == key && |s.nodes[x].next| == height &&
    forall level :: 0 <= level < |s.levels| ==> (x in s.levels[level] <==> level < height)
  }

  /** The insert of a key at a height is under way, or done. */
  ghost predicate InsertGoesOn(s: State, key: Key, height: nat) {
    if s.writer.Idle? then key in Contents(s) && exists x :: LinkedBelowHeight(s, x, key, height)
    else s.writer.key == key && s.writer.height == height
  }

  /** The last publication leaves the node linked at all its levels. */
  lemma LastPublication(s: State)
    requires Inv(s) && s.writer.Publishing? && s.writer.i + 1 == s.writer.height
    ensures WriterReady(s) && LinkedBelowHeight(ApplyWriter(s), s.writer.x, s.writer.key, s.writer.height)
    ensures s.writer.key in Contents(ApplyWriter(s))
  {
    PublishLevels(s);
    var s', x := ApplyWriter(s), s.writer.x;
    assert LinkedBelowHeight(s', x, s.writer.key, s.writer.height);
    assert LevelOk(s'.nodes, 0, s'.levels[0]);
    KeyAt(s'.nodes, s'.levels, IndexOf(s'.levels[0], x));
  }

  lemma WriterGoesOn(s: State, key: Key, height: nat)
    requires Inv(s) && !s.writer.Idle? && InsertGoesOn(s, key, height)
    ensures WriterReady(s) && InsertGoesOn(ApplyWriter(s), key, height)
  {
    WriterKept(s);
    if s.writer.Publishing? && s.writer.i + 1 == height {
      LastPublication(s);
    }
    hide Inv, Kept, LinkedBelowHeight, Contents;
  }

  lemma StepGoesOn(s: State, a: Step, key: Key, height: nat)
    requires Inv(s) && Enabled(s, a) && !a.BeginInsert? && InsertGoesOn(s, key, height)
    ensures InsertGoesOn(Apply(s, a), key, height)
  {
    if a.WriterStep? {
      WriterGoesOn(s, key, height);
    } else {
      hide Inv;
      OnlyTheWriterStores(s, a);
      if s.writer.Idle? {
        var x :| LinkedBelowHeight(s, x, key, height);
        assert LinkedBelowHeight(Apply(s, a), x, key, height);
      }
    }
  }

  /** No insert begins after step i and before state j. */
  ghost predicate NoOtherInsert(steps: seq<Step>, i: nat, j: nat)
    requires j <= |steps|
  {
    forall k :: i < k < j ==> !steps[k].BeginInsert?
  }

  lemma InsertBegins(s: State, key: Key, height: nat)
    requires Enabled(s, BeginInsert(key, height))
    ensures var s' := Apply(s, BeginInsert(key, height));
            !s'.writer.Idle? && InsertGoesOn(s', key, height) && Contents(s') == Contents(s) && s'.nodes == s.nodes
  {
  }

  lemma {:induction false} InsertIsUnderWay(states: seq<State>, steps: seq<Step>, i: nat, j: nat, key: Key, height: nat)
    requires Run(states, steps) && i < j < |states| == |steps| + 1 && steps[i] == BeginInsert(key, height)
    requires NoOtherInsert(steps, i, j)
    ensures InsertGoesOn(states[j], key, height)
    ensures Contents(states[i]) <= Contents(states[j]) <= Contents(states[i]) + {key}
    decreases j
  {
    hide Inv, Kept, Enabled, InsertGoesOn, Contents, Apply, Run;
    RunStep(states, steps, j);
    if j == i + 1 {
      InsertBegins(states[i], key, height);
    } else {
      InsertIsUnderWay(states, steps, i, j - 1, key, height);
      StepGoesOn(states[j - 1], steps[j - 1], key, height);
      GainsOnly(states[j - 1], steps[j - 1], key, height);
    }
  }

  lemma GainsOnly(s: State, a: Step, key: Key, height: nat)
    requires Inv(s) && Enabled(s, a) && !a.BeginInsert? && InsertGoesOn(s, key, height)
    ensures Contents(s) <= Contents(Apply(s, a)) <= Contents(s) + {key}
  {
    ContentsChangeAtPublish(s, a);
    hide Inv, Contents, Apply;
  }

  /** An insert that has returned has put its key in, and nothing else: the list has the keys it had at the call and this
      one, and the key's node has the height chosen for it and is linked at exactly the levels below that height. */
  lemma InsertAddsItsKey(states: seq<State>, steps: seq<Step>, i: nat, j: nat, key: Key, height: nat) returns (x: nat)
    requires Run(states, steps) && i < j < |states| == |steps| + 1 && steps[i] == BeginInsert(key, height)
    requires NoOtherInsert(steps, i, j) && states[j].writer.Idle?
    ensures Contents(states[j]) == Contents(states[i]) + {key}
    ensures LinkedBelowHeight(states[j], x, key, height)
  {
    InsertIsUnderWay(states, steps, i, j, key, height);
    x :| LinkedBelowHeight(states[j], x, key, height);
  }

  // ----- Inserts end

  /** The writer's steps until the insert is done, at most. */
  ghost function StepsLeft(s: State): int {
    match s.writer
    case Idle => 0
    case Locating(_, height, search, _) => search.level + 1 + |s.nodes| - 1 - |Passed(s.nodes, search.x)| + 2 + 2 * height
    case Raising(_, height, _) => 2 + 2 * height
    case Allocating(_, height, _) => 1 + 2 * height
    case Linking(_, height, _, _, i) => 2 * (height - i)
    case Publishing(_, height, _, _, i) => 2 * (height - i) - 1
  }

  /** The writer's steps among those from i up to j. */
  ghost function WriterSteps(steps: seq<Step>, i: nat, j: nat): nat
    requires j <= |steps|
  {
    if j <= i then 0 else WriterSteps(steps, i, j - 1) + if steps[j - 1].WriterStep? then 1 else 0
  }

  lemma LocatingGetsCloser(s: State)
    requires Inv(s) && s.writer.Locating?
    ensures WriterReady(s) && 0 <= StepsLeft(ApplyWriter(s)) <= StepsLeft(s) - 1
  {
    LocatingKept(s);
    var search := s.writer.search;
    RoundMakesProgress(s.nodes, s.levels, s.maxHeight, search);
    FewerThan(Passed(s.nodes, search.x), |s.nodes|);
    if ApplyWriter(s).writer.Locating? {
      FewerThan(Passed(s.nodes, ApplyWriter(s).writer.search.x), |s.nodes|);
    }
    hide Inv, Passed, Kept;
  }

  lemma WriterGetsCloser(s: State)
    requires Inv(s) && !s.writer.Idle?
    ensures WriterReady(s) && 0 <= StepsLeft(ApplyWriter(s)) <= StepsLeft(s) - 1
  {
    WriterKept(s);
    if s.writer.Locating? {
      LocatingGetsCloser(s);
    }
  }

  lemma OthersLeaveInsert(s: State, a: Step)
    requires Enabled(s, a) && !a.BeginInsert? && !a.WriterStep?
    ensures StepsLeft(Apply(s, a)) == StepsLeft(s)
  {
    OnlyTheWriterStores(s, a);
    hide Passed, Enabled;
  }

  lemma StepsAtBegin(s: State, key: Key, height: nat)
    requires Inv(s) && Enabled(s, BeginInsert(key, height))
    ensures StepsLeft(Apply(s, BeginInsert(key, height))) <= MAX_HEIGHT + |s.nodes| + 1 + 2 * height
  {
  }

  lemma {:induction false} WriterStepsCounted(states: seq<State>, steps: seq<Step>, i: nat, j: nat, key: Key, height: nat)
    requires Run(states, steps) && i < j < |states| == |steps| + 1 && steps[i] == BeginInsert(key, height)
    requires NoOtherInsert(steps, i, j)
    ensures WriterSteps(steps, i + 1, j) + StepsLeft(states[j]) <= MAX_HEIGHT + |states[i].nodes| + 1 + 2 * height
    decreases j
  {
    hide Inv, Kept, Enabled, StepsLeft, Apply, Run;
    RunStep(states, steps, j);
    if j == i + 1 {
      StepsAtBegin(states[i], key, height);
    } else {
      WriterStepsCounted(states, steps, i, j - 1, key, height);
      if steps[j - 1].WriterStep? {
        WriterTakesStep(states[j - 1]);
      } else {
        OthersLeaveInsert(states[j - 1], steps[j - 1]);
      }
    }
  }

  lemma WriterTakesStep(s: State)
    requires Inv(s) && Enabled(s, WriterStep)
    ensures StepsLeft(Apply(s, WriterStep)) + 1 <= StepsLeft(s)
  {
    WriterGetsCloser(s);
  }

  lemma SomeLeft(s: State)
    requires Inv(s)
    ensures StepsLeft(s) >= 0 && (!s.writer.Idle? ==> StepsLeft(s) >= 1)
  {
    if !s.writer.Idle? {
      WriterGetsCloser(s);
    }
  }

  /** An insert returns within a bounded number of the writer's own steps, whatever readers do meanwhile: one for each level
      and node its search passes, two for each level it links, and two in between. */
  lemma InsertsEnd(states: seq<State>, steps: seq<Step>, i: nat, j: nat, key: Key, height: nat)
    requires Run(states, steps) && i < j < |states| == |steps| + 1 && steps[i] == BeginInsert(key, height)
    requires NoOtherInsert(steps, i, j)
    ensures var most := MAX_HEIGHT + |states[i].nodes| + 1 + 2 * height;
            WriterSteps(steps, i + 1, j) <= most && (WriterSteps(steps, i + 1, j) == most ==> states[j].writer.Idle?)
  {
    hide Inv, StepsLeft;
    WriterStepsCounted(states, steps, i, j, key, height);
    RunKeepsInv(states, steps, j);
    SomeLeft(states[j]);
  }

  // ----- Searches

  /** Reader r's search for a goal begins with step i and returns with step j. */
  ghost predicate SearchFor(states: seq<State>, steps: seq<Step>, i: nat, j: nat, r: nat, goal: Goal) {
    |states| == |steps| + 1 && i < j < |steps| && steps[i] == BeginSearch(r, goal) && steps[j] == ReaderLoad(r) &&
    (forall k :: i < k <= j ==> r < |states[k].readers| && states[k].readers[r].Searching?) &&
    r < |states[j + 1].readers| && states[j + 1].readers[r].Returned?
  }

  lemma {:induction false} GoalIsKept(states: seq<State>, steps: seq<Step>, i: nat, j: nat, r: nat, goal: Goal)
    requires Run(states, steps) && i < j < |states| == |steps| + 1 && steps[i] == BeginSearch(r, goal)
    requires forall k :: i < k <= j ==> r < |states[k].readers| && states[k].readers[r].Searching?
    ensures states[j].readers[r].search.goal == goal
    decreases j
  {
    hide Inv, Kept, Enabled, Apply, Run;
    RunStep(states, steps, j);
    if j == i + 1 {
      GoalIsTaken(states[i], r, goal);
    } else {
      GoalIsKept(states, steps, i, j - 1, r, goal);
      GoalStays(states[j - 1], steps[j - 1], r);
    }
  }

  lemma GoalIsTaken(s: State, r: nat, goal: Goal)
    requires Enabled(s, BeginSearch(r, goal)) && Apply(s, BeginSearch(r, goal)).readers[r].Searching?
    ensures Apply(s, BeginSearch(r, goal)).readers[r].search.goal == goal
  {
  }

  lemma GoalStays(s: State, a: Step, r: nat)
    requires Enabled(s, a) && r < |s.readers| && s.readers[r].Searching?
    requires r < |Apply(s, a).readers| && Apply(s, a).readers[r].Searching?
    ensures Apply(s, a).readers[r].search.goal == s.readers[r].search.goal
  {
    if a != ReaderLoad(r) {
      SameReader(s, a, r);
    }
  }

  /** A search answers the goal it was called with, exactly, over the keys linked when it returns: whatever was inserted
      while it ran, and however stale the height it started from. */
  lemma SearchAnswersItsGoal(states: seq<State>, steps: seq<Step>, i: nat, j: nat, r: nat, goal: Goal)
    requires Run(states, steps) && SearchFor(states, steps, i, j, r, goal)
    ensures states[j + 1].readers[r].goal == goal
    ensures Answers(states[j + 1].nodes, states[j + 1].levels, goal, states[j + 1].readers[r].result)
  {
    GoalIsKept(states, steps, i, j, r, goal);
    SearchesAreExact(states, steps, j);
  }

  /** `FindGreaterOrEqual` for a key finds a node, and one at or before any key from its target on that was there at an
      earlier point m of the run. */
  lemma SeekMissesNothing(states: seq<State>, steps: seq<Step>, i: nat, j: nat, r: nat, target: Key, m: nat, k: Key)
    requires Run(states, steps) && SearchFor(states, steps, i, j, r, AtOrAfter(target))
    requires m <= j && target <= k && k in Contents(states[m])
    ensures var result := states[j + 1].readers[r].result;
            result.To? && result.id < |states[j + 1].nodes| && target <= states[j + 1].nodes[result.id].key <= k
  {
    SearchAnswersItsGoal(states, steps, i, j, r, AtOrAfter(target));
    SearchesMissNothing(states, steps, m, j, k);
  }

  /** `FindLessThan` for a key, the search of `Prev`, ends before the key, and at or after any key before it that was there
      at an earlier point m of the run. */
  lemma PrevMissesNothing(states: seq<State>, steps: seq<Step>, i: nat, j: nat, r: nat, target: Key, m: nat, k: Key)
    requires Run(states, steps) && SearchFor(states, steps, i, j, r, Before(target))
    requires m <= j && k < target && k in Contents(states[m])
    ensures var result := states[j + 1].readers[r].result;
            result.To? && HEAD != result.id < |states[j + 1].nodes| && k <= states[j + 1].nodes[result.id].key < target
  {
    SearchAnswersItsGoal(states, steps, i, j, r, Before(target));
    BackwardSearchesMissNothing(states, steps, m, j, k);
  }

  /** `FindLast`, the search of `SeekToLast`, ends at or after any key that was there at an earlier point m of the run. */
  lemma LastMissesNothing(states: seq<State>, steps: seq<Step>, i: nat, j: nat, r: nat, m: nat, k: Key)
    requires Run(states, steps) && SearchFor(states, steps, i, j, r, End) && m <= j && k in Contents(states[m])
    ensures var result := states[j + 1].readers[r].result;
            result.To? && HEAD != result.id < |states[j + 1].nodes| && k <= states[j + 1].nodes[result.id].key
  {
    SearchAnswersItsGoal(states, steps, i, j, r, End);
    BackwardSearchesMissNothing(states, steps, m, j, k);
  }

  /** `Contains` under concurrency: a key whose insert returned before the search began is found. */
  lemma ReadYourInsert(states: seq<State>, steps: seq<Step>, w: nat, d: nat, i: nat, j: nat, r: nat, key: Key, height: nat)
    requires Run(states, steps) && w < d <= i && d < |states| == |steps| + 1 && steps[w] == BeginInsert(key, height)
    requires NoOtherInsert(steps, w, d) && states[d].writer.Idle?
    requires SearchFor(states, steps, i, j, r, AtOrAfter(key))
    ensures var result := states[j + 1].readers[r].result;
            result.To? && result.id < |states[j + 1].nodes| && states[j + 1].nodes[result.id].key == key
  {
    var x := InsertAddsItsKey(states, steps, w, d, key, height);
    SeekMissesNothing(states, steps, i, j, r, key, d, key);
  }

  // ----- Walks

  /** A walk with `Next` from the node that `Seek` found for its target, however much later: it lists keys from the target
      on, in strictly increasing order, misses none that was there when the search returned, and lists only keys that are
      there when it ends. */
  lemma SeekThenWalk(states: seq<State>, steps: seq<Step>, b: nat, a: nat, i: nat, j: nat, r: nat, target: Key)
    requires Run(states, steps) && SearchFor(states, steps, b, a, r, AtOrAfter(target))
    requires a < i < j < |states| && i < |steps| && steps[i] == WalkOn(r)
    requires forall k :: a < k <= i ==> r < |states[k].readers| && states[k].readers[r] == states[i].readers[r]
    requires forall k :: i < k < j ==> r < |states[k].readers| && states[k].readers[r].Walking?
    requires r < |states[j].readers| && states[j].readers[r].Walked?
    ensures Increasing(states[j].readers[r].listed)
    ensures forall k :: k in Contents(states[a + 1]) && target <= k ==> k in states[j].readers[r].listed
    ensures forall k :: k in states[j].readers[r].listed ==> k in Contents(states[j]) && target <= k
  {
    SearchAnswersItsGoal(states, steps, b, a, r, AtOrAfter(target));
    hide Run, Contents;
    assert states[a + 1].readers[r] == states[i].readers[r];
    SeekWalksAreComplete(states, steps, a, i, j, r);
  }

  /** The loads of reader r's walk among the steps from i up to j. */
  ghost function WalkLoads(steps: seq<Step>, i: nat, j: nat, r: nat): nat
    requires j <= |steps|
  {
    if j <= i then 0 else WalkLoads(steps, i, j - 1, r) + if steps[j - 1] == WalkLoad(r) then 1 else 0
  }

  /** A walk's load passes another key, or ends the walk. */
  lemma WalkLoadAdvances(s: State, r: nat)
    requires Inv(s) && Enabled(s, WalkLoad(r)) && Apply(s, WalkLoad(r)).readers[r].Walking?
    ensures |Passed(s.nodes, Apply(s, WalkLoad(r)).readers[r].x)| >= |Passed(s.nodes, s.readers[r].x)| + 1
  {
    var x := s.readers[r].x;
    assert ReaderOk(s.nodes, s.levels, s.readers[r]);
    var q := SearchLoads(s.nodes, s.levels, s.maxHeight, Search(End, x, 0));
    assert LevelOk(s.nodes, 0, s.levels[0]);
    LevelAt(s.nodes, 0, s.levels[0], q);
    if q + 1 < |s.levels[0]| {
      LevelAt(s.nodes, 0, s.levels[0], q + 1);
      MorePassed(s.nodes, x, s.nodes, s.nodes[x].next[0].id);
    }
  }

  lemma WalkerWaits(s: State, a: Step, s': State, r: nat)
    requires Inv(s) && Enabled(s, a) && s' == Apply(s, a) && Kept(s, s') && a != WalkLoad(r)
    requires r < |s.readers| && s.readers[r].Walking?
    ensures r < |s'.readers| && s'.readers[r] == s.readers[r]
    ensures |Passed(s'.nodes, s.readers[r].x)| >= |Passed(s.nodes, s.readers[r].x)|
  {
    hide Inv, ListOk, Passed;
    ReaderIs(s, r);
    MorePassed(s.nodes, s.readers[r].x, s'.nodes, s.readers[r].x);
  }

  lemma {:induction false} WalkLoadsCounted(states: seq<State>, steps: seq<Step>, i: nat, j: nat, r: nat)
    requires Run(states, steps) && i < j < |states| == |steps| + 1 && StartsWalk(steps[i], r)
    requires forall k :: i < k <= j ==> r < |states[k].readers| && states[k].readers[r].Walking?
    ensures WalkLoads(steps, i + 1, j, r) <= |Passed(states[j].nodes, states[j].readers[r].x)|
    decreases j
  {
    hide Inv, Kept, Enabled, Passed, Run, Apply;
    if j > i + 1 {
      WalkLoadsCounted(states, steps, i, j - 1, r);
      RunStep(states, steps, j);
      if steps[j - 1] == WalkLoad(r) {
        WalkLoadAdvances(states[j - 1], r);
        SameNodes(states[j - 1], r);
      } else {
        WalkerWaits(states[j - 1], steps[j - 1], states[j], r);
      }
    }
  }

  lemma SameNodes(s: State, r: nat)
    requires Enabled(s, WalkLoad(r))
    ensures Apply(s, WalkLoad(r)).nodes == s.nodes
  {
  }

  /** A walk ends: while it still goes on, it has made fewer loads than there are nodes. */
  lemma WalksEnd(states: seq<State>, steps: seq<Step>, i: nat, j: nat, r: nat)
    requires Run(states, steps) && i < j < |states| == |steps| + 1 && StartsWalk(steps[i], r)
    requires forall k :: i < k <= j ==> r < |states[k].readers| && states[k].readers[r].Walking?
    ensures WalkLoads(steps, i + 1, j, r) < |states[j].nodes|
  {
    WalkLoadsCounted(states, steps, i, j, r);
    FewerThan(Passed(states[j].nodes, states[j].readers[r].x), |states[j].nodes|);
    RunKeepsInv(states, steps, j);
    HeadLinked(states[j], 0);
  }
}
