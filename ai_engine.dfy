// `AlphaBetaAI` of the 2048 agent (2048ai/ai.ts): the object that owns the queue,
// grows the game tree breadth first and then picks the move of the best child of the
// root. Its steps are proved against the search state of `AiSearch`.

module AiEngine {
  import opened Common
  import opened MoveRules
  import opened AiBoard
  import opened AiNode
  import opened Deque
  import opened AiSearch


  class AlphaBetaAI {
    var depthLimit: int
    const deque: CircularDeque<nat>
    /** The size the queue was asked for. */
    const queueSize: nat
    var heuristics: seq<Heuristic>

    ghost predicate Valid()
      reads this, deque, deque.buffer
    {
      deque.Valid() && deque.capacity == queueSize + 1 && queueSize >= 1
    }

    /** The queue holds as many nodes as it was sized for: `addBack` would throw. */
    ghost predicate Full()
      reads this, deque
    {
      |deque.Contents| == queueSize
    }

    /** The queue is sized for the default depth limit of 10 and 4 children a node:
      * room for every node of a full tree of that depth. */
    constructor (heuristics: seq<Heuristic>)
      ensures Valid() && fresh(deque) && fresh(deque.buffer)
      ensures queueSize == QueueCapacity(DefaultDepthLimit, MaxChildrenPerNode)
      ensures queueSize == FullTreeSize(MaxChildrenPerNode, DefaultDepthLimit)
      ensures depthLimit == DefaultDepthLimit && this.heuristics == heuristics && deque.Contents == []
    {
      depthLimit := DefaultDepthLimit;
      QueueCapacityIsFullTree(DefaultDepthLimit, MaxChildrenPerNode);
      FullTreePositive(MaxChildrenPerNode, DefaultDepthLimit);
      var size := QueueCapacity(DefaultDepthLimit, MaxChildrenPerNode);
      queueSize := size;
      deque := new CircularDeque<nat>(size);
      this.heuristics := heuristics;
    }

    /** `setDepthLimit`: the queue keeps the size it was given. */
    method SetDepthLimit(depth: int)
      modifies this
      ensures depthLimit == depth && heuristics == old(heuristics)
    {
      depthLimit := depth;
    }

    method SetHeuristics(heuristics: seq<Heuristic>)
      modifies this
      ensures this.heuristics == heuristics && depthLimit == old(depthLimit)
    {
      this.heuristics := heuristics;
    }

    /** `calculateBestMove`, given the copy of the game's board that
      * `getCurrentGridCopy` returns. It fails only as `addBack` does, on a full
      * queue; otherwise the tree it searched is the search tree of the board and the
      * move is the one alpha-beta picks, which is the plain minimax choice. */
    method CalculateBestMove(current: Board) returns (r: Result<nat>, ghost tree: seq<GameNode>, ghost expanded: set<nat>)
      requires Valid() && IsGameBoard(current)
      modifies deque, deque.buffer
      ensures Valid()
      ensures r.Err? ==> r == Err("Deque is full") && Full()
      ensures r.Ok? ==>
        SearchTree(tree, expanded, current, depthLimit, heuristics) == true && r.value == BestMoveOf(tree)
    {
      var nodes, outcome;
      nodes, expanded, outcome := Search(current);
      if outcome.Fail? {
        return Err("Deque is full"), [], {};
      }
      tree := nodes;
      var move := ChooseMove(nodes);
      r := Ok(move);
    }

    /** The breadth-first loop of `calculateBestMove`: the root is queued, then rounds
      * run until the queue is empty, unless it fills up first. What it leaves is the
      * search tree of the board. */
    method Search(current: Board) returns (nodes: seq<GameNode>, ghost done: set<nat>, outcome: Outcome)
      requires Valid() && IsGameBoard(current)
      modifies deque, deque.buffer
      ensures Valid()
      ensures outcome.Fail? ==> outcome == Fail("Deque is full") && Full()
      ensures outcome.Pass? ==> SearchTree(nodes, done, current, depthLimit, heuristics) == true
    {
      var limit := depthLimit;
      var hs := heuristics;
      var seen;
      nodes, seen, done := QueueRoot(current);
      outcome := Pass;
      StartLoop(current, limit, hs);
      while !deque.IsEmpty()
        invariant Valid() && outcome == Pass
        invariant LoopInv(SearchState(nodes, deque.Contents, seen, done), current, limit, hs) == true
        invariant forall k :: 0 <= k < |deque.Contents| ==> deque.Contents[k] < |nodes|
        decreases QueueWeight(nodes, deque.Contents, limit)
      {
        nodes, seen, done, outcome := NextRound(current, nodes, seen, done, limit, hs);
        if outcome.Fail? {
          return;
        }
      }
      LoopDone(SearchState(nodes, deque.Contents, seen, done), current, limit, hs);
    }

    /** The start of `calculateBestMove`: the queue is cleared, the root is built from
      * the board and queued, and its key is seen. */
    method QueueRoot(current: Board) returns (nodes: seq<GameNode>, seen: set<string>, ghost done: set<nat>)
      requires Valid() && IsGameBoard(current)
      modifies deque, deque.buffer
      ensures Valid()
      ensures SearchState(nodes, deque.Contents, seen, done) == Start(current)
    {
      deque.Clear();
      nodes := [NewNode(0, current, None)];
      done := {};
      seen := {Key(current)};
      var pushed := deque.AddBack(0);
    }

    /** A round of the loop keeps its invariant and makes the queue lighter. */
    method NextRound(current: Board, nodes: seq<GameNode>, seen: set<string>, ghost done: set<nat>, limit: int, hs: seq<Heuristic>)
      returns (result: seq<GameNode>, seenAfter: set<string>, ghost doneAfter: set<nat>, outcome: Outcome)
      requires Valid() && IsGameBoard(current) && |deque.Contents| > 0
      requires LoopInv(SearchState(nodes, deque.Contents, seen, done), current, limit, hs) == true
      modifies deque, deque.buffer
      ensures Valid()
      ensures outcome.Fail? ==> outcome == Fail("Deque is full") && Full()
      ensures outcome.Pass? ==>
        && LoopInv(SearchState(result, deque.Contents, seenAfter, doneAfter), current, limit, hs) == true
        && (forall k :: 0 <= k < |deque.Contents| ==> deque.Contents[k] < |result|)
        && QueueWeight(result, deque.Contents, limit) < QueueWeight(nodes, old(deque.Contents), limit)
    {
      ghost var s := SearchState(nodes, deque.Contents, seen, done);
      RoundInv(s, current, limit, hs);
      RoundWeight(s, limit, hs);
      result, seenAfter, doneAfter, outcome := SearchRound(nodes, seen, done, limit, hs);
    }

    /** One round of the loop: `removeFront`, `expandNode` on the node it returns,
      * then the loop over the new children, unless the queue fills up. */
    method SearchRound(nodes: seq<GameNode>, seen: set<string>, ghost done: set<nat>, limit: int, hs: seq<Heuristic>)
      returns (result: seq<GameNode>, seenAfter: set<string>, ghost doneAfter: set<nat>, outcome: Outcome)
      requires Valid() && CanExpand(SearchState(nodes, deque.Contents, seen, done))
      modifies deque, deque.buffer
      ensures Valid()
      ensures outcome.Fail? ==> outcome == Fail("Deque is full") && Full()
      ensures outcome.Pass? ==>
        SearchState(result, deque.Contents, seenAfter, doneAfter) ==
        Round(SearchState(nodes, old(deque.Contents), seen, done), limit, hs)
    {
      ghost var s := SearchState(nodes, deque.Contents, seen, done);
      var front := deque.RemoveFront();
      var x := front.value;
      ExpandBoards(nodes, x, hs);
      var grown := ExpandNode(nodes, x, hs);
      result, seenAfter, outcome := EnqueueChildren(grown, |nodes|, seen, limit, hs);
      doneAfter := done + {x};
      if outcome.Pass? {
        assert Decided(result, deque.Contents, seenAfter) == DecideFrom(Decided(grown, s.queue[1..], s.seen), |nodes|, limit, hs);
      }
    }

    /** The loop over the new children `first ..` of the node just expanded: each is
      * decided in turn, as `DecideFrom` says, unless the queue fills up. */
    method EnqueueChildren(nodes: seq<GameNode>, first: nat, seen: set<string>, limit: int, hs: seq<Heuristic>)
      returns (result: seq<GameNode>, seenAfter: set<string>, outcome: Outcome)
      requires Valid()
      requires first <= |nodes| && forall j :: first <= j < |nodes| ==> IsBoard(nodes[j].grid)
      modifies deque, deque.buffer
      ensures Valid()
      ensures outcome.Fail? ==> outcome == Fail("Deque is full") && Full()
      ensures outcome.Pass? ==>
        Decided(result, deque.Contents, seenAfter) == DecideFrom(Decided(nodes, old(deque.Contents), seen), first, limit, hs)
    {
      result, seenAfter, outcome := nodes, seen, Pass;
      ghost var start := Decided(nodes, deque.Contents, seen);
      for c := first to |nodes|
        invariant Valid() && outcome == Pass
        invariant ChildrenInv(start, first, Decided(result, deque.Contents, seenAfter), c, limit, hs) == true
      {
        result, seenAfter, outcome := DecideNext(start, first, result, c, seenAfter, limit, hs);
        if outcome.Fail? {
          return;
        }
      }
      ChildrenDone(start, first, Decided(result, deque.Contents, seenAfter), limit, hs);
    }

    /** The body of the loop over the children: child `c` is decided, which takes
      * `DecideFrom` one child further. */
    method DecideNext(ghost start: Decided, first: nat, current: seq<GameNode>, c: nat, seen: set<string>, limit: int, hs: seq<Heuristic>)
      returns (result: seq<GameNode>, seenAfter: set<string>, outcome: Outcome)
      requires Valid() && c < |start.nodes|
      requires ChildrenInv(start, first, Decided(current, deque.Contents, seen), c, limit, hs) == true
      modifies deque, deque.buffer
      ensures Valid()
      ensures outcome.Fail? ==> outcome == Fail("Deque is full") && Full()
      ensures outcome.Pass? ==> ChildrenInv(start, first, Decided(result, deque.Contents, seenAfter), c + 1, limit, hs) == true
    {
      ghost var previous := Decided(current, deque.Contents, seen);
      assert ViewOf(current[c]) == ViewOf(start.nodes[c]);
      result, seenAfter, outcome := DecideChild(current, c, seen, limit, hs);
      if outcome.Pass? {
        assert Decided(result, deque.Contents, seenAfter) == Decide(previous, c, limit, hs);
      }
    }

    /** One child `c`: `scoreNode`, then `addBack` when it is shallower than the limit
      * and its key has not been seen. */
    method DecideChild(nodes: seq<GameNode>, c: nat, seen: set<string>, limit: int, hs: seq<Heuristic>)
      returns (result: seq<GameNode>, seenAfter: set<string>, outcome: Outcome)
      requires Valid() && c < |nodes| && IsBoard(nodes[c].grid)
      modifies deque, deque.buffer
      ensures Valid()
      ensures outcome.Fail? ==> outcome == Fail("Deque is full") && Full()
      ensures outcome.Pass? ==>
        Decided(result, deque.Contents, seenAfter) == Decide(Decided(nodes, old(deque.Contents), seen), c, limit, hs)
    {
      var u := ScoreNode(hs, nodes[c].grid);
      result := nodes[c := nodes[c].(score := nodes[c].score + u)];
      seenAfter, outcome := seen, Pass;
      if result[c].depth < limit {
        var hash := Key(result[c].grid);
        if hash !in seen {
          outcome := deque.AddBack(c);
          if outcome.Fail? {
            return;
          }
          seenAfter := seen + {hash};
        }
      }
    }
  }
}
