// The search of the 2048 agent (2048ai/ai.ts): `minimize`/`maximize` with alpha-beta
// pruning, `calculateQueueCapacity`, and `AlphaBetaAI`, which grows the game tree
// breadth first and then picks the move of the best child of the root. The tree is an
// arena: `children` holds indices into the sequence of nodes, always larger than the
// parent's own index.

module AiSearch {
  import opened Common
  import opened MoveRules
  import opened AiBoard
  import opened AiNode
  import opened Deque

  // ---------------------------------------------------------------------------------
  // The tree and its minimax value

  /** Every child index points further into the arena. */
  predicate WellFormed(tree: seq<GameNode>) {
    forall i, c :: 0 <= i < |tree| && c in tree[i].children ==> i < c < |tree|
  }

  function Max(a: int, b: int): int {
    if a >= b then a else b
  }

  function Min(a: int, b: int): int {
    if a <= b then a else b
  }

  /** The plain minimax value of node `i`: its score at a leaf, otherwise the largest
    * (`isMax`) or smallest value of its children, whose turn is the other one. */
  function Value(tree: seq<GameNode>, i: nat, isMax: bool): int
    requires WellFormed(tree) && i < |tree|
    decreases |tree| - i, 1, 0
  {
    if |tree[i].children| == 0 then tree[i].score
    else Best(tree, i, |tree[i].children|, isMax)
  }

  /** The best value among the first `n` children of node `i`. */
  function Best(tree: seq<GameNode>, i: nat, n: nat, isMax: bool): int
    requires WellFormed(tree) && i < |tree| && 1 <= n <= |tree[i].children|
    decreases |tree| - i, 0, n
  {
    var c := Child(tree, i, n - 1);
    var v := Value(tree, c, !isMax);
    if n == 1 then v
    else if isMax then Max(Best(tree, i, n - 1, isMax), v)
    else Min(Best(tree, i, n - 1, isMax), v)
  }

  /** The `k`-th child of node `i`. */
  function Child(tree: seq<GameNode>, i: nat, k: nat): (c: nat)
    requires WellFormed(tree) && i < |tree| && k < |tree[i].children|
    ensures i < c < |tree|
  {
    assert tree[i].children[k] in tree[i].children;
    tree[i].children[k]
  }

  /** Looking at more children can only improve the best value. */
  lemma {:induction false} BestGrows(tree: seq<GameNode>, i: nat, k: nat, n: nat, isMax: bool)
    requires WellFormed(tree) && i < |tree| && 1 <= k <= n <= |tree[i].children|
    ensures isMax ==> Best(tree, i, k, isMax) <= Best(tree, i, n, isMax)
    ensures !isMax ==> Best(tree, i, k, isMax) >= Best(tree, i, n, isMax)
    decreases n
  {
    if k < n {
      BestGrows(tree, i, k, n - 1, isMax);
    }
  }

  // ---------------------------------------------------------------------------------
  // Alpha-beta bounds, with the infinities of the source

  datatype Bound = NegInf | Fin(n: int) | PosInf

  /** `v <= b`. */
  predicate AtMost(v: int, b: Bound) {
    match b
    case NegInf => false
    case Fin(n) => v <= n
    case PosInf => true
  }

  /** `v >= b`. */
  predicate AtLeast(v: int, b: Bound) {
    match b
    case NegInf => true
    case Fin(n) => v >= n
    case PosInf => false
  }

  /** `a < b`. */
  predicate Below(a: Bound, b: Bound) {
    match a
    case NegInf => !b.NegInf?
    case Fin(x) => b.PosInf? || (b.Fin? && x < b.n)
    case PosInf => false
  }

  /** What a fail-soft alpha-beta search promises about its result `v` for a node of
    * minimax value `value`: at or below `alpha` it is an upper bound, at or above `beta`
    * a lower bound, and strictly between them it is exact. */
  predicate FailSoft(v: int, alpha: Bound, beta: Bound, value: int) {
    && (AtMost(v, alpha) ==> value <= v)
    && (AtLeast(v, beta) ==> value >= v)
    && (!AtMost(v, alpha) && !AtLeast(v, beta) ==> value == v)
  }

  /** With the window open on both sides the search returns the exact value. */
  lemma FullWindowExact(v: int, value: int)
    requires FailSoft(v, NegInf, PosInf, value)
    ensures v == value
  {
  }

  /** `alpha = maxScore` when `maxScore >= alpha`. */
  function Raise(alpha: Bound, v: int): Bound {
    if AtLeast(v, alpha) then Fin(v) else alpha
  }

  /** `beta = minScore` when `minScore <= beta`. */
  function Lower(beta: Bound, v: int): Bound {
    if AtMost(v, beta) then Fin(v) else beta
  }

  /** `maximize(node, alpha, beta)`. The first child's result replaces the initial
    * `-Infinity` of `maxScore`, as `Math.max` does. */
  method Maximize(tree: seq<GameNode>, i: nat, alpha: Bound, beta: Bound) returns (v: int)
    requires WellFormed(tree) && i < |tree| && Below(alpha, beta)
    ensures FailSoft(v, alpha, beta, Value(tree, i, true))
    decreases |tree| - i, 0
  {
    var children := tree[i].children;
    if |children| == 0 {
      return tree[i].score;
    }
    var a := alpha;
    var maxScore := 0;
    for k := 0 to |children|
      invariant Below(a, beta)
      invariant k == 0 ==> a == alpha
      invariant k > 0 ==>
        && !AtLeast(maxScore, beta)
        && Best(tree, i, k, true) <= maxScore
        && (!AtMost(maxScore, alpha) ==> Best(tree, i, k, true) == maxScore)
        && a == Raise(alpha, maxScore)
    {
      assert children[k] in children;
      var score := Minimize(tree, children[k], a, beta);
      maxScore := if k == 0 then score else Max(maxScore, score);
      if AtLeast(maxScore, beta) {
        BestGrows(tree, i, k + 1, |children|, true);
        return maxScore;
      }
      if AtLeast(maxScore, a) {
        a := Fin(maxScore);
      }
    }
    return maxScore;
  }

  /** `minimize(node, alpha, beta)`, the mirror image of `maximize`. */
  method Minimize(tree: seq<GameNode>, i: nat, alpha: Bound, beta: Bound) returns (v: int)
    requires WellFormed(tree) && i < |tree| && Below(alpha, beta)
    ensures FailSoft(v, alpha, beta, Value(tree, i, false))
    decreases |tree| - i, 0
  {
    var children := tree[i].children;
    if |children| == 0 {
      return tree[i].score;
    }
    var b := beta;
    var minScore := 0;
    for k := 0 to |children|
      invariant Below(alpha, b)
      invariant k == 0 ==> b == beta
      invariant k > 0 ==>
        && !AtMost(minScore, alpha)
        && Best(tree, i, k, false) >= minScore
        && (!AtLeast(minScore, beta) ==> Best(tree, i, k, false) == minScore)
        && b == Lower(beta, minScore)
    {
      assert children[k] in children;
      var score := Maximize(tree, children[k], alpha, b);
      minScore := if k == 0 then score else Min(minScore, score);
      if AtMost(minScore, alpha) {
        BestGrows(tree, i, k + 1, |children|, false);
        return minScore;
      }
      if AtMost(minScore, b) {
        b := Fin(minScore);
      }
    }
    return minScore;
  }

  // ---------------------------------------------------------------------------------
  // The move chosen at the root

  /** The minimax values of the root's children, each a computer's turn. */
  function RootValues(tree: seq<GameNode>): (r: seq<int>)
    requires WellFormed(tree) && |tree| > 0
    ensures |r| == |tree[0].children|
  {
    seq(|tree[0].children|, k requires 0 <= k < |tree[0].children| => Value(tree, Child(tree, 0, k), false))
  }

  /** `i` holds the largest value of `s`, and no earlier index does. */
  predicate IsFirstMax(s: seq<int>, i: int) {
    0 <= i < |s| && (forall j :: 0 <= j < |s| ==> s[j] <= s[i]) && (forall j :: 0 <= j < i ==> s[j] < s[i])
  }

  /** The index `score > alpha` settles on, scanning left to right. */
  function FirstMax(s: seq<int>): (i: nat)
    requires |s| > 0
    ensures i < |s|
  {
    if |s| == 1 then 0
    else
      var m := FirstMax(s[..|s| - 1]);
      if s[|s| - 1] > s[m] then |s| - 1 else m
  }

  lemma {:induction false} FirstMaxIsFirstMax(s: seq<int>)
    requires |s| > 0
    ensures IsFirstMax(s, FirstMax(s))
  {
    if |s| > 1 {
      FirstMaxIsFirstMax(s[..|s| - 1]);
    }
  }

  /** `bestMove || 0`. */
  function MoveOrUp(move: Option<nat>): nat {
    if move.Some? then move.value else 0
  }

  /** The move of the first root child of highest minimax value, or 0 (up) when the
    * root has no child. */
  function BestMoveOf(tree: seq<GameNode>): nat
    requires WellFormed(tree) && |tree| > 0
  {
    if |tree[0].children| == 0 then 0
    else MoveOrUp(tree[Child(tree, 0, FirstMax(RootValues(tree)))].move)
  }

  /** The best value among the first `n` children of the root is the largest of their
    * minimax values. */
  lemma {:induction false} BestIsLargestRootValue(tree: seq<GameNode>, n: nat)
    requires WellFormed(tree) && |tree| > 0 && 1 <= n <= |tree[0].children|
    ensures Best(tree, 0, n, true) == RootValues(tree)[FirstMax(RootValues(tree)[..n])]
  {
    var s := RootValues(tree);
    if n > 1 {
      BestIsLargestRootValue(tree, n - 1);
      assert s[..n][..n - 1] == s[..n - 1];
    }
  }

  /** The chosen child carries the minimax value of the root itself. */
  lemma BestMoveIsMinimax(tree: seq<GameNode>)
    requires WellFormed(tree) && |tree| > 0 && |tree[0].children| > 0
    ensures var s := RootValues(tree);
      IsFirstMax(s, FirstMax(s)) && s[FirstMax(s)] == Value(tree, 0, true) &&
      BestMoveOf(tree) == MoveOrUp(tree[Child(tree, 0, FirstMax(s))].move)
  {
    var s := RootValues(tree);
    FirstMaxIsFirstMax(s);
    BestIsLargestRootValue(tree, |s|);
    assert s[..|s|] == s;
  }

  /** The loop at the end of `calculateBestMove`: each root child is searched with the
    * best value so far as `alpha`, and the first child to beat it gives the move. */
  method ChooseMove(tree: seq<GameNode>) returns (move: nat)
    requires WellFormed(tree) && |tree| > 0
    ensures move == BestMoveOf(tree)
  {
    var children := tree[0].children;
    ghost var s := RootValues(tree);
    var alpha: Bound := NegInf;
    var bestMove: Option<nat> := None;
    for k := 0 to |children|
      invariant k == 0 ==> alpha == NegInf && bestMove == None
      invariant k > 0 ==>
        alpha == Fin(s[FirstMax(s[..k])]) && bestMove == tree[Child(tree, 0, FirstMax(s[..k]))].move
    {
      assert children[k] in children;
      var score := Minimize(tree, children[k], alpha, PosInf);
      assert s[..k + 1][..k] == s[..k];
      if !AtMost(score, alpha) {
        alpha := Fin(score);
        bestMove := tree[children[k]].move;
      }
    }
    if |children| > 0 {
      assert s[..|children|] == s;
    }
    move := MoveOrUp(bestMove);
  }

  // ---------------------------------------------------------------------------------
  // `calculateQueueCapacity`

  function Pow(b: int, e: nat): int {
    if e == 0 then 1 else b * Pow(b, e - 1)
  }

  /** `1 + c + c^2 + ... + c^depth`: the nodes of a full tree of that depth where every
    * node has `c` children. */
  function FullTreeSize(c: int, depth: nat): int {
    if depth == 0 then 1 else FullTreeSize(c, depth - 1) + Pow(c, depth)
  }

  /** `(c ** (depth + 1) - 1) / (c - 1)`. */
  function QueueCapacity(depth: nat, c: int): int
    requires c >= 2
  {
    (Pow(c, depth + 1) - 1) / (c - 1)
  }

  lemma {:induction false} FullTreeTimes(c: int, depth: nat)
    ensures (c - 1) * FullTreeSize(c, depth) == Pow(c, depth + 1) - 1
  {
    if depth > 0 {
      FullTreeTimes(c, depth - 1);
    }
  }

  /** The closed form divides exactly: the capacity is the size of the full tree. */
  lemma QueueCapacityIsFullTree(depth: nat, c: int)
    requires c >= 2
    ensures QueueCapacity(depth, c) == FullTreeSize(c, depth)
  {
    FullTreeTimes(c, depth);
    DivExact(Pow(c, depth + 1) - 1, c - 1, FullTreeSize(c, depth));
  }

  lemma MulAwayFromZero(d: int, e: int)
    requires d > 0
    ensures e >= 1 ==> d * e >= d
    ensures e <= -1 ==> d * e <= -d
  {
    assert d * e - d == d * (e - 1);
    assert d * e + d == d * (e + 1);
  }

  lemma DivExact(n: int, d: int, f: int)
    requires d > 0 && d * f == n
    ensures n / d == f
  {
    var q, r := n / d, n % d;
    assert n == d * q + r && 0 <= r < d;
    assert d * (f - q) == d * f - d * q;
    MulAwayFromZero(d, f - q);
  }

  lemma {:induction false} FullTreePositive(c: int, depth: nat)
    requires c >= 1
    ensures FullTreeSize(c, depth) >= 1 && Pow(c, depth) >= 1
  {
    if depth > 0 {
      FullTreePositive(c, depth - 1);
    }
  }

  /** The queue the agent allocates for its default depth limit. */
  const DefaultDepthLimit: nat := 10
  const MaxChildrenPerNode: int := 4

  // ---------------------------------------------------------------------------------
  // The state of the breadth-first search

  /** `[a, a + 1, ..., b - 1]`. */
  function Range(a: nat, b: nat): (r: seq<nat>)
    requires a <= b
    ensures |r| == b - a && forall k :: 0 <= k < |r| ==> r[k] == a + k
  {
    seq(b - a, k requires 0 <= k < b - a => a + k)
  }

  /** The views of the children of node `i`, in order. */
  function ChildViews(tree: seq<GameNode>, i: nat): (r: seq<View>)
    requires WellFormed(tree) && i < |tree|
    ensures |r| == |tree[i].children|
  {
    seq(|tree[i].children|, k requires 0 <= k < |tree[i].children| => ViewOf(tree[Child(tree, i, k)]))
  }

  /** The children expanding a node creates: the player's moves at even depth, the
    * computer's worst placement at odd depth. */
  ghost function Expansion(n: GameNode, hs: seq<Heuristic>): seq<View>
    requires IsGameBoard(n.grid)
  {
    if n.depth % 2 == 0 then HumanViews(n.grid, n.depth, |n.grid|) else ComputerViews(n.grid, n.depth, n.move, hs)
  }

  lemma ExpansionShape(n: GameNode, hs: seq<Heuristic>)
    requires IsGameBoard(n.grid)
    ensures |Expansion(n, hs)| <= 4
    ensures forall k :: 0 <= k < |Expansion(n, hs)| ==>
      Expansion(n, hs)[k].depth == n.depth + 1 && IsGameBoard(Expansion(n, hs)[k].grid)
  {
    if n.depth % 2 == 0 {
      HumanViewsCount(n.grid, n.depth, |n.grid|);
    }
  }

  /** The score a child has when it is created: the weighted total for a player's
    * child (odd depth), nothing for a computer's child. */
  function CreationScore(n: GameNode, hs: seq<Heuristic>): int
    requires IsBoard(n.grid)
  {
    if n.depth % 2 == 1 then WeightedTotal(hs, Prepare(n.grid)) else 0
  }

  /** The score a child has once `scoreNode` has added the unweighted total. */
  function LeafScore(n: GameNode, hs: seq<Heuristic>): int
    requires IsBoard(n.grid)
  {
    CreationScore(n, hs) + UnweightedTotal(hs, Prepare(n.grid))
  }

  /** Node `i` was expanded: its children are its expansion. */
  ghost predicate ExpandedAt(tree: seq<GameNode>, i: nat, hs: seq<Heuristic>)
    requires WellFormed(tree) && i < |tree| && IsGameBoard(tree[i].grid)
  {
    ChildViews(tree, i) == Expansion(tree[i], hs)
  }

  /** A well-formed arena of 4x4 boards. */
  ghost predicate Arena(nodes: seq<GameNode>) {
    WellFormed(nodes) && forall i :: 0 <= i < |nodes| ==> IsGameBoard(nodes[i].grid)
  }

  /** The arena's first node is the root, built from the current board. */
  ghost predicate Shape(nodes: seq<GameNode>, current: Board) {
    |nodes| >= 1 && ViewOf(nodes[0]) == View(0, current, None) && Arena(nodes)
  }

  /** Every expanded node has its expansion as children. This is kept apart from
    * `SearchInv`, whose steps do not need to look at the expansions. */
  ghost predicate Expanded(nodes: seq<GameNode>, done: set<nat>, hs: seq<Heuristic>)
    requires Arena(nodes)
  {
    forall i :: i in done && i < |nodes| ==> ExpandedAt(nodes, i, hs)
  }

  /** Expanded nodes lie below `decided`; the others have no children yet. */
  ghost predicate ExpansionsDone(nodes: seq<GameNode>, done: set<nat>, decided: nat) {
    && (forall i :: i in done ==> i < decided && i < |nodes|)
    && (forall i :: 0 <= i < |nodes| && i !in done ==> nodes[i].children == [])
  }

  /** An expanded node left without children scores -10000; the other nodes below
    * `decided` have been through `scoreNode`, and the rest have not yet. */
  ghost predicate Scored(nodes: seq<GameNode>, done: set<nat>, decided: nat, hs: seq<Heuristic>)
    requires Arena(nodes)
  {
    && (forall i :: i in done && i < |nodes| && |nodes[i].children| == 0 ==> nodes[i].score == -10000)
    && (forall i :: 0 < i < decided && i < |nodes| && i !in done ==> nodes[i].score == LeafScore(nodes[i], hs))
    && (forall i :: decided <= i < |nodes| ==> nodes[i].score == CreationScore(nodes[i], hs))
  }

  /** The queue holds distinct, not yet expanded nodes below `decided`, and the root
    * has been queued. */
  ghost predicate Queued(done: set<nat>, q: seq<nat>, decided: nat) {
    && (forall k :: 0 <= k < |q| ==> q[k] < decided && q[k] !in done)
    && (forall k, l :: 0 <= k < l < |q| ==> q[k] != q[l])
    && (0 in done || 0 in q)
    && decided >= 1
  }

  /** The nodes ever queued: those expanded and those waiting. */
  ghost function Enrolled(done: set<nat>, q: seq<nat>): set<nat> {
    done + set j | j in q
  }

  /** The views of the first `n` nodes. */
  ghost function ViewsUpTo(nodes: seq<GameNode>, n: nat): (r: seq<View>)
    requires n <= |nodes|
    ensures |r| == n && forall j :: 0 <= j < n ==> r[j] == ViewOf(nodes[j])
  {
    seq(n, j requires 0 <= j < n => ViewOf(nodes[j]))
  }

  /** The `toString` of a node, which depends on its board alone. */
  function ViewKey(v: View): string {
    if IsBoard(v.grid) then Key(v.grid) else ""
  }

  /** The keys of the views below `n` whose indices are in `enrolled`. */
  ghost function QueuedKeys(views: seq<View>, enrolled: set<nat>, n: nat): set<string>
    requires n <= |views|
  {
    if n == 0 then {}
    else QueuedKeys(views, enrolled, n - 1) + (if n - 1 in enrolled then {ViewKey(views[n - 1])} else {})
  }

  lemma {:induction false} QueuedKeysMeaning(views: seq<View>, enrolled: set<nat>, n: nat, h: string)
    requires n <= |views|
    ensures h in QueuedKeys(views, enrolled, n) <==>
      exists j :: 0 <= j < n && j in enrolled && ViewKey(views[j]) == h
  {
    if n > 0 {
      QueuedKeysMeaning(views, enrolled, n - 1, h);
      if h in QueuedKeys(views, enrolled, n - 1) {
        var j :| 0 <= j < n - 1 && j in enrolled && ViewKey(views[j]) == h;
        assert 0 <= j < n;
      }
    }
  }

  /** The keys below `n` depend only on the views and the enrolment below `n`. */
  lemma {:induction false} QueuedKeysPrefix(a: seq<View>, b: seq<View>, ea: set<nat>, eb: set<nat>, n: nat)
    requires n <= |a| && n <= |b|
    requires forall j :: 0 <= j < n ==> a[j] == b[j] && (j in ea <==> j in eb)
    ensures QueuedKeys(a, ea, n) == QueuedKeys(b, eb, n)
  {
    if n > 0 {
      QueuedKeysPrefix(a, b, ea, eb, n - 1);
    }
  }

  /** `seenStates` holds exactly the keys of the decided nodes ever queued, `enrolled`. */
  ghost predicate SeenKeys(views: seq<View>, enrolled: set<nat>, seen: set<string>) {
    seen == QueuedKeys(views, enrolled, |views|)
  }

  /** A decided node other than the root was queued exactly when it is shallower than
    * the limit and no node queued before it has the same key. */
  ghost predicate QueueRule(views: seq<View>, enrolled: set<nat>, limit: int) {
    RuleUpTo(views, enrolled, limit, |views|)
  }

  /** The rule of `QueueRule` for the views below `n`, one view at a time. */
  ghost predicate RuleUpTo(views: seq<View>, enrolled: set<nat>, limit: int, n: nat)
    requires n <= |views|
  {
    n <= 1 ||
    (&& RuleUpTo(views, enrolled, limit, n - 1)
     && (n - 1 in enrolled <==>
         views[n - 1].depth < limit && ViewKey(views[n - 1]) !in QueuedKeys(views, enrolled, n - 1)))
  }

  lemma {:induction false} RuleUpToAt(views: seq<View>, enrolled: set<nat>, limit: int, n: nat, i: nat)
    requires n <= |views| && RuleUpTo(views, enrolled, limit, n) && 0 < i < n
    ensures i in enrolled <==> views[i].depth < limit && ViewKey(views[i]) !in QueuedKeys(views, enrolled, i)
  {
    if i < n - 1 {
      RuleUpToAt(views, enrolled, limit, n - 1, i);
    }
  }

  /** The rule below `n` depends only on the views and the enrolment below `n`. */
  lemma {:induction false} RuleUpToPrefix(a: seq<View>, b: seq<View>, ea: set<nat>, eb: set<nat>, limit: int, n: nat)
    requires n <= |a| && n <= |b|
    requires forall j :: 0 <= j < n ==> a[j] == b[j] && (j in ea <==> j in eb)
    ensures RuleUpTo(a, ea, limit, n) == RuleUpTo(b, eb, limit, n)
  {
    if n > 1 {
      RuleUpToPrefix(a, b, ea, eb, limit, n - 1);
      QueuedKeysPrefix(a, b, ea, eb, n - 1);
    }
  }

  /** The state of `calculateBestMove`'s loop: the arena `nodes`, the expanded nodes
    * `done`, the queue `q`, `seenStates`, and the nodes below `decided`, which are
    * the ones whose turn to be queued has come. */
  ghost predicate SearchInv(nodes: seq<GameNode>, done: set<nat>, q: seq<nat>, seen: set<string>, decided: nat,
                            current: Board, limit: int, hs: seq<Heuristic>)
  {
    && Shape(nodes, current)
    && decided <= |nodes|
    && ExpansionsDone(nodes, done, decided)
    && Scored(nodes, done, decided, hs)
    && Queued(done, q, decided)
    && SeenKeys(ViewsUpTo(nodes, decided), Enrolled(done, q), seen)
    && QueueRule(ViewsUpTo(nodes, decided), Enrolled(done, q), limit)
  }

  /** The tree `calculateBestMove` builds from `current`: the root expanded first; every
    * expanded node has its expansion as children (-10000 when there are none); every
    * other node is a leaf scored by the heuristics; and a node other than the root is
    * expanded exactly when it is shallower than `limit` and no node expanded before it
    * has the same key. */
  ghost predicate SearchTree(tree: seq<GameNode>, expanded: set<nat>, current: Board, limit: int, hs: seq<Heuristic>) {
    && Shape(tree, current)
    && 0 in expanded
    && (forall i :: i in expanded ==> i < |tree| && ExpandedAt(tree, i, hs) && (|tree[i].children| == 0 ==> tree[i].score == -10000))
    && (forall i :: 0 <= i < |tree| && i !in expanded ==> tree[i].children == [] && tree[i].score == LeafScore(tree[i], hs))
    && (forall i :: 0 < i < |tree| ==>
         (i in expanded <==>
           tree[i].depth < limit &&
           forall j :: 0 <= j < i && j in expanded ==> Key(tree[j].grid) != Key(tree[i].grid)))
  }

  // ---------------------------------------------------------------------------------
  // Transitions of the search state

  /** Arena `b` keeps the views of arena `a` and leaves it unchanged outside `x`. */
  ghost predicate Keeps(a: seq<GameNode>, b: seq<GameNode>, x: int) {
    && |a| <= |b|
    && (forall j :: 0 <= j < |a| ==> ViewOf(b[j]) == ViewOf(a[j]))
    && (forall j :: 0 <= j < |a| && j != x ==> b[j] == a[j])
  }

  /** `b` has the views of `a`, and only its scores may differ. */
  ghost predicate SameViews(a: seq<GameNode>, b: seq<GameNode>) {
    |a| == |b| && (forall j :: 0 <= j < |a| ==> ViewOf(b[j]) == ViewOf(a[j]) && b[j].children == a[j].children)
  }

  lemma ArenaGrows(a: seq<GameNode>, b: seq<GameNode>, x: int)
    requires Arena(a) && Keeps(a, b, x) && WellFormed(b)
    requires forall j :: |a| <= j < |b| ==> IsGameBoard(b[j].grid)
    ensures Arena(b)
  {
    forall j | 0 <= j < |a|
      ensures IsGameBoard(b[j].grid)
    {
      assert ViewOf(b[j]) == ViewOf(a[j]);
    }
  }

  lemma ExpandedKept(a: seq<GameNode>, b: seq<GameNode>, x: int, i: nat, hs: seq<Heuristic>)
    requires WellFormed(a) && WellFormed(b) && Keeps(a, b, x) && i < |a| && i != x
    requires IsGameBoard(a[i].grid) && ExpandedAt(a, i, hs)
    ensures ExpandedAt(b, i, hs)
  {
    assert b[i] == a[i];
    forall k | 0 <= k < |b[i].children|
      ensures ChildViews(b, i)[k] == ChildViews(a, i)[k]
    {
      assert Child(b, i, k) == Child(a, i, k);
    }
  }

  lemma ViewsKept(a: seq<GameNode>, b: seq<GameNode>, x: int, n: nat)
    requires Keeps(a, b, x) && n <= |a|
    ensures ViewsUpTo(b, n) == ViewsUpTo(a, n)
  {
  }

  lemma EnrolledAfterExpand(done: set<nat>, q: seq<nat>)
    requires |q| > 0
    ensures Enrolled(done + {q[0]}, q[1..]) == Enrolled(done, q)
  {
    forall j | j in q
      ensures j == q[0] || j in q[1..]
    {
      var k :| 0 <= k < |q| && q[k] == j;
      if k > 0 {
        assert q[1..][k - 1] == j;
      }
    }
  }

  lemma EnrolledAfterQueue(done: set<nat>, q: seq<nat>, c: nat)
    ensures Enrolled(done, q + [c]) == Enrolled(done, q) + {c}
  {
    assert forall j :: j in q + [c] <==> j in q || j == c;
  }

  /** The start: the root alone, queued, its key seen. */
  lemma StartInv(current: Board, limit: int, hs: seq<Heuristic>)
    requires IsGameBoard(current)
    ensures SearchInv([NewNode(0, current, None)], {}, [0], {Key(current)}, 1, current, limit, hs)
  {
    var nodes := [NewNode(0, current, None)];
    assert Key(nodes[0].grid) == Key(current);
    assert 0 in Enrolled({}, [0]);
  }

  /** The end: with the queue empty, the state is the search tree. */
  lemma FinishInv(nodes: seq<GameNode>, done: set<nat>, seen: set<string>, current: Board, limit: int, hs: seq<Heuristic>)
    requires SearchInv(nodes, done, [], seen, |nodes|, current, limit, hs) && Expanded(nodes, done, hs)
    ensures SearchTree(nodes, done, current, limit, hs)
  {
    assert Enrolled(done, []) == done;
    var views := ViewsUpTo(nodes, |nodes|);
    forall i | 0 < i < |nodes|
      ensures i in done <==>
        nodes[i].depth < limit && forall j :: 0 <= j < i && j in done ==> Key(nodes[j].grid) != Key(nodes[i].grid)
    {
      RuleUpToAt(views, done, limit, |nodes|, i);
      QueuedKeysMeaning(views, done, i, ViewKey(views[i]));
      assert forall j :: 0 <= j < |nodes| ==> ViewKey(views[j]) == Key(nodes[j].grid);
    }
  }

  lemma QueuedAfterExpand(done: set<nat>, q: seq<nat>, decided: nat)
    requires Queued(done, q, decided) && |q| > 0
    ensures Queued(done + {q[0]}, q[1..], decided)
  {
    forall k | 0 <= k < |q[1..]|
      ensures q[1..][k] != q[0]
    {
      assert q[1..][k] == q[k + 1];
    }
  }

  lemma DoneAfterExpand(nodes: seq<GameNode>, done: set<nat>, q: seq<nat>, result: seq<GameNode>, hs: seq<Heuristic>)
    requires Arena(nodes) && Arena(result) && |q| > 0 && Queued(done, q, |nodes|)
    requires ExpansionsDone(nodes, done, |nodes|) && Scored(nodes, done, |nodes|, hs)
    requires Keeps(nodes, result, q[0]) && (|result[q[0]].children| == 0 ==> result[q[0]].score == -10000)
    requires forall j :: |nodes| <= j < |result| ==> result[j].children == [] && result[j].score == CreationScore(result[j], hs)
    ensures ExpansionsDone(result, done + {q[0]}, |nodes|) && Scored(result, done + {q[0]}, |nodes|, hs)
  {
    var x := q[0];
    forall i | 0 <= i < |nodes| && i != x
      ensures result[i] == nodes[i]
    {
    }
  }

  /** Taking the front of the queue and expanding it keeps the invariant, with the
    * new children still to be decided. */
  lemma ExpandInv(nodes: seq<GameNode>, done: set<nat>, q: seq<nat>, seen: set<string>,
                  result: seq<GameNode>, current: Board, limit: int, hs: seq<Heuristic>)
    requires SearchInv(nodes, done, q, seen, |nodes|, current, limit, hs) && |q| > 0
    requires Keeps(nodes, result, q[0]) && WellFormed(result)
    requires forall j :: |nodes| <= j < |result| ==>
      result[j].children == [] && IsGameBoard(result[j].grid) && result[j].score == CreationScore(result[j], hs)
    requires |result[q[0]].children| == 0 ==> result[q[0]].score == -10000
    ensures SearchInv(result, done + {q[0]}, q[1..], seen, |nodes|, current, limit, hs)
  {
    ArenaGrows(nodes, result, q[0]);
    EnrolledAfterExpand(done, q);
    ViewsKept(nodes, result, q[0], |nodes|);
    QueuedAfterExpand(done, q, |nodes|);
    DoneAfterExpand(nodes, done, q, result, hs);
    assert ViewOf(result[0]) == ViewOf(nodes[0]);
  }

  /** `scoreNode` on child `c`. */
  function ScoreChild(nodes: seq<GameNode>, c: nat, hs: seq<Heuristic>): (r: seq<GameNode>)
    requires c < |nodes| && IsBoard(nodes[c].grid)
    ensures |r| == |nodes| && Keeps(nodes, r, c)
    ensures r[c].score == nodes[c].score + UnweightedTotal(hs, Prepare(nodes[c].grid)) && r[c].children == nodes[c].children
  {
    nodes[c := nodes[c].(score := nodes[c].score + UnweightedTotal(hs, Prepare(nodes[c].grid)))]
  }

  lemma DoneAfterDecide(nodes: seq<GameNode>, done: set<nat>, c: nat, hs: seq<Heuristic>)
    requires Arena(nodes) && c < |nodes| && ExpansionsDone(nodes, done, c) && Scored(nodes, done, c, hs)
    ensures Arena(ScoreChild(nodes, c, hs))
    ensures ExpansionsDone(ScoreChild(nodes, c, hs), done, c + 1) && Scored(ScoreChild(nodes, c, hs), done, c + 1, hs)
  {
    var scored := ScoreChild(nodes, c, hs);
    ArenaGrows(nodes, scored, c);
  }

  /** Expanding `x` records its expansion and keeps the earlier ones. */
  lemma ExpandedAfterExpand(nodes: seq<GameNode>, done: set<nat>, x: nat, result: seq<GameNode>, hs: seq<Heuristic>)
    requires Arena(nodes) && Arena(result) && Expanded(nodes, done, hs) && x !in done && x < |nodes|
    requires forall i :: i in done ==> i < |nodes|
    requires Keeps(nodes, result, x) && ExpandedAt(result, x, hs)
    ensures Expanded(result, done + {x}, hs)
  {
    forall i | i in done
      ensures ExpandedAt(result, i, hs)
    {
      ExpandedKept(nodes, result, x, i, hs);
    }
  }

  /** Scoring changes no view and no list of children. */
  lemma ExpandedAfterScoring(a: seq<GameNode>, b: seq<GameNode>, done: set<nat>, hs: seq<Heuristic>)
    requires Arena(a) && Arena(b) && Expanded(a, done, hs) && SameViews(a, b)
    ensures Expanded(b, done, hs)
  {
    forall i | i in done && i < |b|
      ensures ExpandedAt(b, i, hs)
    {
      assert ViewOf(b[i]) == ViewOf(a[i]);
      forall k | 0 <= k < |b[i].children|
        ensures ChildViews(b, i)[k] == ChildViews(a, i)[k]
      {
        assert Child(b, i, k) == Child(a, i, k);
        assert ViewOf(b[Child(b, i, k)]) == ViewOf(a[Child(a, i, k)]);
      }
    }
  }

  lemma QueuedAfterDecide(done: set<nat>, q: seq<nat>, c: nat, queue: bool)
    requires Queued(done, q, c) && c !in done
    ensures Queued(done, if queue then q + [c] else q, c + 1)
  {
    if queue {
      var q' := q + [c];
      assert forall k :: 0 <= k < |q| ==> q'[k] == q[k] < c;
      assert 0 in done || 0 in q';
    }
  }

  /** Deciding the view `v` that comes next: it is queued when shallower than the
    * limit and its key is not yet seen. */
  lemma SeenAfterDecide(views: seq<View>, enrolled: set<nat>, seen: set<string>, v: View, limit: int)
    requires SeenKeys(views, enrolled, seen) && QueueRule(views, enrolled, limit)
    requires forall j :: j in enrolled ==> j < |views|
    ensures var queue := v.depth < limit && ViewKey(v) !in seen;
      var enrolled' := if queue then enrolled + {|views|} else enrolled;
      SeenKeys(views + [v], enrolled', if queue then seen + {ViewKey(v)} else seen) &&
      QueueRule(views + [v], enrolled', limit)
  {
    var queue := v.depth < limit && ViewKey(v) !in seen;
    var enrolled' := if queue then enrolled + {|views|} else enrolled;
    var views' := views + [v];
    QueuedKeysPrefix(views', views, enrolled', enrolled, |views|);
    RuleUpToPrefix(views', views, enrolled', enrolled, limit, |views|);
    assert views'[|views|] == v;
  }


  /** The part of the search state the loop over new children works on: the arena,
    * the queue and `seenStates`. */
  datatype Decided = Decided(nodes: seq<GameNode>, queue: seq<nat>, seen: set<string>)

  /** Child `c`: `scoreNode`, then it joins the queue and its key joins `seenStates`
    * when it is shallower than the limit and its key has not been seen. */
  ghost function Decide(s: Decided, c: nat, limit: int, hs: seq<Heuristic>): (r: Decided)
    requires c < |s.nodes| && IsBoard(s.nodes[c].grid)
    ensures SameViews(s.nodes, r.nodes)
  {
    var queue := s.nodes[c].depth < limit && Key(s.nodes[c].grid) !in s.seen;
    Decided(ScoreChild(s.nodes, c, hs),
            if queue then s.queue + [c] else s.queue,
            if queue then s.seen + {Key(s.nodes[c].grid)} else s.seen)
  }

  /** `Decide` on children `c`, `c + 1`, ... up to the end of the arena, in order. */
  ghost function DecideFrom(s: Decided, c: nat, limit: int, hs: seq<Heuristic>): (r: Decided)
    requires c <= |s.nodes| && forall j :: c <= j < |s.nodes| ==> IsBoard(s.nodes[j].grid)
    ensures SameViews(s.nodes, r.nodes)
    decreases |s.nodes| - c
  {
    if c == |s.nodes| then s
    else
      var n := Decide(s, c, limit, hs);
      assert forall j :: c + 1 <= j < |n.nodes| ==> ViewOf(n.nodes[j]) == ViewOf(s.nodes[j]);
      DecideFrom(n, c + 1, limit, hs)
  }

  /** The loop over the children `first ..` of `start` has decided those before `c`:
    * deciding the rest from `now` gives what deciding them all from `start` gives. */
  ghost predicate ChildrenInv(start: Decided, first: nat, now: Decided, c: nat, limit: int, hs: seq<Heuristic>) {
    && first <= c <= |start.nodes|
    && (forall j :: first <= j < |start.nodes| ==> IsBoard(start.nodes[j].grid))
    && SameViews(start.nodes, now.nodes)
    && DecideFrom(now, c, limit, hs) == DecideFrom(start, first, limit, hs)
  }

  /** When the loop over the children ends, it has decided them all. */
  lemma ChildrenDone(start: Decided, first: nat, now: Decided, limit: int, hs: seq<Heuristic>)
    requires ChildrenInv(start, first, now, |start.nodes|, limit, hs)
    ensures now == DecideFrom(start, first, limit, hs)
  {
  }

  /** Scoring child `c` with `scoreNode` and deciding whether to queue it keeps the
    * invariant, with one more node decided. */
  lemma DecideInv(s: Decided, done: set<nat>, c: nat, current: Board, limit: int, hs: seq<Heuristic>)
    requires SearchInv(s.nodes, done, s.queue, s.seen, c, current, limit, hs) && c < |s.nodes|
    ensures IsBoard(s.nodes[c].grid)
    ensures var r := Decide(s, c, limit, hs); SearchInv(r.nodes, done, r.queue, r.seen, c + 1, current, limit, hs)
  {
    DecideKeepsTree(s, done, c, current, limit, hs);
    DecideKeepsSeen(s, done, c, current, limit, hs);
  }

  /** The arena side of `DecideInv`: the shape, the expanded and scored nodes, the queue. */
  lemma DecideKeepsTree(s: Decided, done: set<nat>, c: nat, current: Board, limit: int, hs: seq<Heuristic>)
    requires SearchInv(s.nodes, done, s.queue, s.seen, c, current, limit, hs) && c < |s.nodes|
    ensures IsBoard(s.nodes[c].grid)
    ensures var r := Decide(s, c, limit, hs);
      && Shape(r.nodes, current) && ExpansionsDone(r.nodes, done, c + 1) && Scored(r.nodes, done, c + 1, hs)
      && Queued(done, r.queue, c + 1)
  {
    var nodes := s.nodes;
    var queue := nodes[c].depth < limit && Key(nodes[c].grid) !in s.seen;
    QueuedAfterDecide(done, s.queue, c, queue);
    DoneAfterDecide(nodes, done, c, hs);
    assert ViewOf(ScoreChild(nodes, c, hs)[0]) == ViewOf(nodes[0]);
  }

  /** The key side of `DecideInv`: `seenStates` and the rule for who is queued. */
  lemma DecideKeepsSeen(s: Decided, done: set<nat>, c: nat, current: Board, limit: int, hs: seq<Heuristic>)
    requires SearchInv(s.nodes, done, s.queue, s.seen, c, current, limit, hs) && c < |s.nodes|
    ensures IsBoard(s.nodes[c].grid)
    ensures var r := Decide(s, c, limit, hs);
      && SeenKeys(ViewsUpTo(r.nodes, c + 1), Enrolled(done, r.queue), r.seen)
      && QueueRule(ViewsUpTo(r.nodes, c + 1), Enrolled(done, r.queue), limit)
  {
    var nodes := s.nodes;
    EnrolledAfterQueue(done, s.queue, c);
    assert ViewKey(ViewOf(nodes[c])) == Key(nodes[c].grid);
    SeenAfterDecide(ViewsUpTo(nodes, c), Enrolled(done, s.queue), s.seen, ViewOf(nodes[c]), limit);
    assert ViewsUpTo(ScoreChild(nodes, c, hs), c + 1) == ViewsUpTo(nodes, c) + [ViewOf(nodes[c])];
  }

  /** Deciding the children from `c` on keeps the invariant and decides them all. */
  lemma {:induction false} DecideFromInv(s: Decided, done: set<nat>, c: nat, current: Board, limit: int, hs: seq<Heuristic>)
    requires c <= |s.nodes| && SearchInv(s.nodes, done, s.queue, s.seen, c, current, limit, hs)
    ensures c <= |s.nodes| && forall j :: c <= j < |s.nodes| ==> IsBoard(s.nodes[j].grid)
    ensures var r := DecideFrom(s, c, limit, hs);
      SearchInv(r.nodes, done, r.queue, r.seen, |s.nodes|, current, limit, hs) == true
    decreases |s.nodes| - c
  {
    if c < |s.nodes| {
      DecideInv(s, done, c, current, limit, hs);
      DecideFromInv(Decide(s, c, limit, hs), done, c + 1, current, limit, hs);
    }
  }

  /** Deciding child `c` adds at most its `ChildWeight` to the queue's weight. */
  lemma DecideWeight(s: Decided, c: nat, limit: int, hs: seq<Heuristic>)
    requires c < |s.nodes| && IsBoard(s.nodes[c].grid)
    requires forall k :: 0 <= k < |s.queue| ==> s.queue[k] < |s.nodes|
    ensures var r := Decide(s, c, limit, hs);
      && (forall k :: 0 <= k < |r.queue| ==> r.queue[k] < |r.nodes|)
      && QueueWeight(r.nodes, r.queue, limit) <= QueueWeight(s.nodes, s.queue, limit) + ChildWeight(s.nodes[c].depth, limit)
  {
    var r := Decide(s, c, limit, hs);
    QueueWeightKept(s.nodes, r.nodes, s.queue, limit);
    if r.queue != s.queue {
      QueueWeightSnoc(r.nodes, s.queue, c, limit);
    }
  }

  /** `Decide` on child `c` keeps every depth and board, and appends at most `c`, only
    * when it is shallower than the limit. */
  lemma DecideQueueStep(s: Decided, c: nat, limit: int, hs: seq<Heuristic>)
    requires c < |s.nodes| && IsBoard(s.nodes[c].grid)
    ensures var n := Decide(s, c, limit, hs);
      && (forall j :: 0 <= j < |n.nodes| ==> n.nodes[j].depth == s.nodes[j].depth && n.nodes[j].grid == s.nodes[j].grid)
      && (n.queue == s.queue || (n.queue == s.queue + [c] && s.nodes[c].depth < limit))
  {
  }

  /** `DecideFrom` only appends to the queue: at most one entry per child decided, each
    * a child shallower than the limit. */
  lemma {:induction false} DecideFromQueue(s: Decided, c: nat, limit: int, hs: seq<Heuristic>)
    requires c <= |s.nodes| && forall j :: c <= j < |s.nodes| ==> IsBoard(s.nodes[j].grid)
    ensures var r := DecideFrom(s, c, limit, hs);
      && |s.queue| <= |r.queue| <= |s.queue| + (|s.nodes| - c)
      && r.queue == s.queue + r.queue[|s.queue|..]
      && forall k :: |s.queue| <= k < |r.queue| ==> c <= r.queue[k] < |s.nodes| && s.nodes[r.queue[k]].depth < limit
    decreases |s.nodes| - c
  {
    if c < |s.nodes| {
      var n := Decide(s, c, limit, hs);
      DecideQueueStep(s, c, limit, hs);
      DecideFromQueue(n, c + 1, limit, hs);
      var r := DecideFrom(n, c + 1, limit, hs);
      assert DecideFrom(s, c, limit, hs) == r;
      QueueAppendStep(s.nodes, n.nodes, s.queue, n.queue, r.queue, c, limit);
    }
  }

  /** One more decided child in front of the rest: the queue grows by at most one entry,
    * `c`, shallower than the limit. */
  lemma QueueAppendStep(a: seq<GameNode>, b: seq<GameNode>, q: seq<nat>, q1: seq<nat>, q2: seq<nat>, c: nat, limit: int)
    requires c < |a| == |b| && forall j :: 0 <= j < |a| ==> b[j].depth == a[j].depth
    requires q1 == q || (q1 == q + [c] && a[c].depth < limit)
    requires |q1| <= |q2| <= |q1| + (|b| - (c + 1)) && q2 == q1 + q2[|q1|..]
    requires forall k :: |q1| <= k < |q2| ==> c + 1 <= q2[k] < |b| && b[q2[k]].depth < limit
    ensures |q| <= |q2| <= |q| + (|a| - c) && q2 == q + q2[|q|..]
    ensures forall k :: |q| <= k < |q2| ==> c <= q2[k] < |a| && a[q2[k]].depth < limit
  {
    assert q2[|q|..] == q1[|q|..] + q2[|q1|..];
    forall k | |q| <= k < |q2|
      ensures c <= q2[k] < |a| && a[q2[k]].depth < limit
    {
      if k < |q1| {
        assert q2[k] == q1[k] == c;
      }
    }
  }

  /** A queue of nodes all at depth `d`, below the limit, weighs `ChildWeight` each. */
  lemma {:induction false} QueueWeightUniform(nodes: seq<GameNode>, e: seq<nat>, d: int, limit: int)
    requires d < limit && forall k :: 0 <= k < |e| ==> e[k] < |nodes| && nodes[e[k]].depth == d
    ensures QueueWeight(nodes, e, limit) == Times(|e|, ChildWeight(d, limit))
  {
    if |e| > 0 {
      QueueWeightUniform(nodes, e[1..], d, limit);
    }
  }

  /** Appending to a queue at most `m` nodes of depth `d` adds at most `m` times their
    * `ChildWeight`, whatever else changes in the nodes but their depths. */
  lemma AppendedWeight(a: seq<GameNode>, b: seq<GameNode>, q: seq<nat>, q': seq<nat>, m: nat, d: int, limit: int)
    requires |a| == |b| && forall j :: 0 <= j < |a| ==> b[j].depth == a[j].depth
    requires forall k :: 0 <= k < |q| ==> q[k] < |a|
    requires |q| <= |q'| <= |q| + m && q' == q + q'[|q|..]
    requires forall k :: |q| <= k < |q'| ==> q'[k] < |a| && a[q'[k]].depth == d && d < limit
    ensures forall k :: 0 <= k < |q'| ==> q'[k] < |b|
    ensures QueueWeight(b, q', limit) <= QueueWeight(a, q, limit) + Times(m, ChildWeight(d, limit))
  {
    var e := q'[|q|..];
    QueueWeightAppend(b, q, e, limit);
    QueueWeightKept(a, b, q, limit);
    QueueWeightKept(a, b, e, limit);
    if |e| > 0 {
      QueueWeightUniform(a, e, d, limit);
      TimesAtMost(|e|, m, ChildWeight(d, limit));
    }
  }

  /** The node `expandNode` creates for view `v`: no children yet, and the score
    * `CreationScore` gives it. */
  ghost function KidOf(v: View, hs: seq<Heuristic>): (r: GameNode)
    requires IsBoard(v.grid)
    ensures ViewOf(r) == v && r.children == [] && r.score == CreationScore(r, hs)
  {
    var n := NewNode(v.depth, v.grid, v.move);
    n.(score := CreationScore(n, hs))
  }

  /** The children `expandNode` creates for `node`, one per view of its expansion. */
  ghost function Kids(node: GameNode, hs: seq<Heuristic>): (r: seq<GameNode>)
    requires IsGameBoard(node.grid)
    ensures |r| == |Expansion(node, hs)| <= 4
    ensures forall k :: 0 <= k < |r| ==>
      ViewOf(r[k]) == Expansion(node, hs)[k] && r[k].children == [] && IsGameBoard(r[k].grid) &&
      r[k].score == CreationScore(r[k], hs) && r[k].depth == node.depth + 1
  {
    ExpansionShape(node, hs);
    var views := Expansion(node, hs);
    seq(|views|, k requires 0 <= k < |views| => KidOf(views[k], hs))
  }

  /** The score `expandNode` leaves on `node`: -10000 without children; otherwise a
    * player's node keeps its score, and a computer's node takes the weighted total of
    * the last placement `expandComputerMove` considered. */
  ghost function ExpandScore(node: GameNode, hs: seq<Heuristic>): int
    requires IsGameBoard(node.grid)
  {
    if |Expansion(node, hs)| == 0 then -10000
    else if node.depth % 2 == 0 then node.score
    else
      var ps := Placements(node.grid);
      ComputerViewsWorst(node.grid, node.depth, node.move, hs);
      PlacementScores(node.grid, hs, ps)[|ps| - 1]
  }

  /** The arena after `expandNode` on node `x`. */
  ghost function Expand(nodes: seq<GameNode>, x: nat, hs: seq<Heuristic>): seq<GameNode>
    requires x < |nodes| && IsGameBoard(nodes[x].grid)
  {
    Attach(nodes, x, Kids(nodes[x], hs), ExpandScore(nodes[x], hs))
  }

  /** The children `expandNode` creates for `node`, and the score it leaves on `node`. */
  method ExpandKids(node: GameNode, hs: seq<Heuristic>) returns (kids: seq<GameNode>, score: int)
    requires IsGameBoard(node.grid)
    ensures kids == Kids(node, hs) && score == ExpandScore(node, hs)
  {
    if node.depth % 2 == 0 {
      score := node.score;
      kids := ExpandHumanKids(node, hs);
    } else {
      kids, score := ExpandComputerKids(node, hs);
    }
    if |kids| == 0 {
      score := -10000;
    }
  }

  /** A player's node: one child per direction the board can move in. */
  method ExpandHumanKids(node: GameNode, hs: seq<Heuristic>) returns (kids: seq<GameNode>)
    requires IsGameBoard(node.grid) && node.depth % 2 == 0
    ensures kids == Kids(node, hs)
  {
    kids := ExpandHumanMoves(node, hs);
    ghost var views := HumanViews(node.grid, node.depth, |node.grid|);
    ghost var expected := Kids(node, hs);
    HumanViewsCount(node.grid, node.depth, |node.grid|);
    forall k | 0 <= k < |kids|
      ensures kids[k] == expected[k]
    {
      assert ViewOf(kids[k]) == views[k] == ViewOf(expected[k]);
    }
  }

  /** A computer's node: one child per placement, scored by the lowest placement; the
    * node takes the weighted total of the last placement considered. */
  method ExpandComputerKids(node: GameNode, hs: seq<Heuristic>) returns (kids: seq<GameNode>, score: int)
    requires IsGameBoard(node.grid) && node.depth % 2 == 1
    ensures kids == Kids(node, hs)
    ensures |kids| > 0 ==> score == ExpandScore(node, hs)
  {
    kids, score := ExpandComputerMove(node, hs);
    ghost var expected := Kids(node, hs);
    ComputerViewsWorst(node.grid, node.depth, node.move, hs);
    forall k | 0 <= k < |kids|
      ensures kids[k] == expected[k]
    {
      assert ViewOf(kids[k]) == Expansion(node, hs)[k] == ViewOf(expected[k]);
    }
  }

  /** Node `x` with `kids` appended to the arena as its children. */
  function Attach(nodes: seq<GameNode>, x: nat, kids: seq<GameNode>, score: int): (r: seq<GameNode>)
    requires x < |nodes|
    ensures |r| == |nodes| + |kids| && r[x].children == Range(|nodes|, |nodes| + |kids|)
    ensures Keeps(nodes, r, x) && r[x].score == score
    ensures forall k :: 0 <= k < |kids| ==> r[|nodes| + k] == kids[k]
  {
    nodes[x := nodes[x].(score := score, children := Range(|nodes|, |nodes| + |kids|))] + kids
  }

  lemma AttachWellFormed(nodes: seq<GameNode>, x: nat, kids: seq<GameNode>, score: int)
    requires x < |nodes| && WellFormed(nodes) && nodes[x].children == []
    requires forall k :: 0 <= k < |kids| ==> kids[k].children == []
    ensures WellFormed(Attach(nodes, x, kids, score))
  {
    var r := Attach(nodes, x, kids, score);
    forall i | 0 <= i < |r|
      ensures forall c :: c in r[i].children ==> i < c < |r|
    {
      if i >= |nodes| {
        assert r[i] == kids[i - |nodes|];
      } else if i != x {
        assert r[i] == nodes[i];
      }
    }
  }

  lemma AttachViews(nodes: seq<GameNode>, x: nat, kids: seq<GameNode>, score: int, views: seq<View>)
    requires x < |nodes| && WellFormed(Attach(nodes, x, kids, score))
    requires |views| == |kids| && forall k :: 0 <= k < |kids| ==> ViewOf(kids[k]) == views[k]
    ensures ChildViews(Attach(nodes, x, kids, score), x) == views
  {
    var r := Attach(nodes, x, kids, score);
    forall k | 0 <= k < |kids|
      ensures ChildViews(r, x)[k] == views[k]
    {
      assert Child(r, x, k) == |nodes| + k;
    }
  }

  /** What expanding node `x` does to the arena: `x` keeps its view and gets its
    * expansion as children, scored -10000 when there are none; the new nodes are
    * childless game boards one level deeper, scored as when created; all else is
    * unchanged. */
  lemma ExpandFacts(nodes: seq<GameNode>, x: nat, hs: seq<Heuristic>)
    requires x < |nodes| && IsGameBoard(nodes[x].grid) && nodes[x].children == [] && WellFormed(nodes)
    ensures var result := Expand(nodes, x, hs);
      && Keeps(nodes, result, x) && WellFormed(result) && ExpandedAt(result, x, hs)
      && (|result[x].children| == 0 ==> result[x].score == -10000)
      && |result| - |nodes| == |Expansion(nodes[x], hs)| <= 4
      && forall j :: |nodes| <= j < |result| ==>
           result[j].children == [] && IsGameBoard(result[j].grid) && result[j].score == CreationScore(result[j], hs) &&
           result[j].depth == nodes[x].depth + 1
  {
    var kids := Kids(nodes[x], hs);
    var score := ExpandScore(nodes[x], hs);
    var result := Attach(nodes, x, kids, score);
    AttachWellFormed(nodes, x, kids, score);
    AttachViews(nodes, x, kids, score, Expansion(nodes[x], hs));
    forall j | |nodes| <= j < |result|
      ensures result[j] == kids[j - |nodes|]
    {
    }
  }

  /** `expandNode` on node `x`. */
  method ExpandNode(nodes: seq<GameNode>, x: nat, hs: seq<Heuristic>) returns (result: seq<GameNode>)
    requires x < |nodes| && IsGameBoard(nodes[x].grid)
    ensures result == Expand(nodes, x, hs)
  {
    var kids, score := ExpandKids(nodes[x], hs);
    result := Attach(nodes, x, kids, score);
  }

  // ---------------------------------------------------------------------------------
  // Termination: each node queued weighs five times what each of its children does

  function Weight(nodes: seq<GameNode>, x: nat, limit: int): nat
    requires x < |nodes|
  {
    if nodes[x].depth < limit then Pow5(limit - nodes[x].depth) else 1
  }

  function Pow5(e: nat): (r: nat)
    ensures r >= 1
  {
    if e == 0 then 1 else 5 * Pow5(e - 1)
  }

  function QueueWeight(nodes: seq<GameNode>, q: seq<nat>, limit: int): nat
    requires forall k :: 0 <= k < |q| ==> q[k] < |nodes|
  {
    if |q| == 0 then 0 else Weight(nodes, q[0], limit) + QueueWeight(nodes, q[1..], limit)
  }

  lemma {:induction false} QueueWeightAppend(nodes: seq<GameNode>, a: seq<nat>, b: seq<nat>, limit: int)
    requires forall k :: 0 <= k < |a| ==> a[k] < |nodes|
    requires forall k :: 0 <= k < |b| ==> b[k] < |nodes|
    ensures QueueWeight(nodes, a + b, limit) == QueueWeight(nodes, a, limit) + QueueWeight(nodes, b, limit)
  {
    if |a| > 0 {
      QueueWeightAppend(nodes, a[1..], b, limit);
      assert (a + b)[1..] == a[1..] + b;
    } else {
      assert a + b == b;
    }
  }

  lemma {:induction false} QueueWeightKept(a: seq<GameNode>, b: seq<GameNode>, q: seq<nat>, limit: int)
    requires forall k :: 0 <= k < |q| ==> q[k] < |a|
    requires |a| <= |b| && forall j :: 0 <= j < |a| ==> b[j].depth == a[j].depth
    ensures QueueWeight(b, q, limit) == QueueWeight(a, q, limit)
  {
    if |q| > 0 {
      QueueWeightKept(a, b, q[1..], limit);
    }
  }

  /** What a child of depth `depth` adds to the queue's weight when it is queued. */
  function ChildWeight(depth: int, limit: int): nat {
    if depth < limit then Pow5(limit - depth) else 0
  }

  /** Appending `c` adds its weight, which is its `ChildWeight` when it is queued. */
  lemma QueueWeightSnoc(nodes: seq<GameNode>, q: seq<nat>, c: nat, limit: int)
    requires forall k :: 0 <= k < |q| ==> q[k] < |nodes|
    requires c < |nodes| && nodes[c].depth < limit
    ensures forall k :: 0 <= k < |q + [c]| ==> (q + [c])[k] < |nodes|
    ensures QueueWeight(nodes, q + [c], limit) == QueueWeight(nodes, q, limit) + ChildWeight(nodes[c].depth, limit)
  {
    QueueWeightAppend(nodes, q, [c], limit);
    assert QueueWeight(nodes, [c], limit) == Weight(nodes, c, limit) + QueueWeight(nodes, [c][1..], limit);
  }

  /** `n * w`, spelled out as repeated addition. */
  function Times(n: nat, w: nat): nat {
    if n == 0 then 0 else w + Times(n - 1, w)
  }

  lemma {:induction false} TimesAtMost(n: nat, m: nat, w: nat)
    requires n <= m
    ensures Times(n, w) <= Times(m, w)
    decreases m
  {
    if n < m {
      TimesAtMost(n, m - 1, w);
    }
  }

  /** One round of the search loop: the front `q[0]`, at depth `d`, leaves the queue,
    * and at most four children of depth `d + 1` may join it. */
  lemma RoundShrinks(before: seq<GameNode>, after: seq<GameNode>, q: seq<nat>, q': seq<nat>, kids: nat, limit: int)
    requires |q| > 0 && forall k :: 0 <= k < |q| ==> q[k] < |before|
    requires |before| <= |after| && forall j :: 0 <= j < |before| ==> after[j].depth == before[j].depth
    requires forall k :: 0 <= k < |q'| ==> q'[k] < |after|
    requires kids <= 4
    requires QueueWeight(after, q', limit) <= QueueWeight(after, q[1..], limit) + Times(kids, ChildWeight(before[q[0]].depth + 1, limit))
    ensures QueueWeight(after, q', limit) < QueueWeight(before, q, limit)
  {
    QueueWeightKept(before, after, q, limit);
    var d := before[q[0]].depth;
    var w := ChildWeight(d + 1, limit);
    TimesAtMost(kids, 4, w);
    assert Times(0, w) == 0;
    assert Times(1, w) == w;
    assert Times(2, w) == w + w;
    assert Times(4, w) == w + w + w + w;
    assert QueueWeight(after, q, limit) == Weight(after, q[0], limit) + QueueWeight(after, q[1..], limit);
    if d + 1 < limit {
      assert Pow5(limit - d) == 5 * Pow5(limit - d - 1);
    }
  }

  /** A round as a whole: the front leaves the queue, and the children appended, at
    * most four and one level below it, weigh less than it did. */
  lemma RoundDrops(before: seq<GameNode>, mid: seq<GameNode>, after: seq<GameNode>, q: seq<nat>, rest: seq<nat>, q': seq<nat>, limit: int)
    requires |q| > 0 && rest == q[1..] && forall k :: 0 <= k < |q| ==> q[k] < |before|
    requires |before| <= |mid| <= |before| + 4
    requires forall j :: 0 <= j < |before| ==> mid[j].depth == before[j].depth
    requires forall j :: |before| <= j < |mid| ==> mid[j].depth == before[q[0]].depth + 1
    requires |after| == |mid| && forall j :: 0 <= j < |mid| ==> after[j].depth == mid[j].depth
    requires |rest| <= |q'| <= |rest| + (|mid| - |before|) && q' == rest + q'[|rest|..]
    requires forall k :: |rest| <= k < |q'| ==> |before| <= q'[k] < |mid| && mid[q'[k]].depth < limit
    ensures forall k :: 0 <= k < |q'| ==> q'[k] < |after|
    ensures QueueWeight(after, q', limit) < QueueWeight(before, q, limit)
  {
    var kids := |mid| - |before|;
    assert forall k :: 0 <= k < |rest| ==> rest[k] == q[k + 1] < |mid|;
    AppendedWeight(mid, after, rest, q', kids, before[q[0]].depth + 1, limit);
    QueueWeightKept(mid, after, rest, limit);
    RoundShrinks(before, after, q, q', kids, limit);
  }

  // ---------------------------------------------------------------------------------
  // The search loop, round by round

  /** The whole state of `calculateBestMove`'s loop: the arena, the queue,
    * `seenStates`, and the nodes expanded so far. */
  datatype SearchState = SearchState(nodes: seq<GameNode>, queue: seq<nat>, seen: set<string>, done: set<nat>)

  /** Before the loop: the root alone, queued, with its key seen. */
  function Start(current: Board): SearchState
    requires IsGameBoard(current)
  {
    SearchState([NewNode(0, current, None)], [0], {Key(current)}, {})
  }

  /** The queue's front can be expanded: it is a childless game board of the arena. */
  ghost predicate CanExpand(s: SearchState) {
    && |s.queue| > 0
    && (forall k :: 0 <= k < |s.queue| ==> s.queue[k] < |s.nodes|)
    && Arena(s.nodes)
    && s.nodes[s.queue[0]].children == []
  }

  /** The arena after expanding `x` extends it with game boards. */
  lemma ExpandBoards(nodes: seq<GameNode>, x: nat, hs: seq<Heuristic>)
    requires x < |nodes| && IsGameBoard(nodes[x].grid)
    ensures |nodes| <= |Expand(nodes, x, hs)| <= |nodes| + 4
    ensures forall j :: 0 <= j < |nodes| ==> Expand(nodes, x, hs)[j].depth == nodes[j].depth
    ensures forall j :: |nodes| <= j < |Expand(nodes, x, hs)| ==>
      IsBoard(Expand(nodes, x, hs)[j].grid) && Expand(nodes, x, hs)[j].depth == nodes[x].depth + 1
  {
    var kids := Kids(nodes[x], hs);
    forall j | |nodes| <= j < |Expand(nodes, x, hs)|
      ensures Expand(nodes, x, hs)[j] == kids[j - |nodes|]
    {
    }
  }

  /** One round of the loop: the front leaves the queue and is expanded, and its new
    * children are decided in order. */
  ghost function Round(s: SearchState, limit: int, hs: seq<Heuristic>): SearchState
    requires CanExpand(s)
  {
    var x := s.queue[0];
    ExpandBoards(s.nodes, x, hs);
    var d := DecideFrom(Decided(Expand(s.nodes, x, hs), s.queue[1..], s.seen), |s.nodes|, limit, hs);
    SearchState(d.nodes, d.queue, d.seen, s.done + {x})
  }

  /** A round leaves only nodes of the arena in the queue, and a lighter queue. */
  lemma RoundWeight(s: SearchState, limit: int, hs: seq<Heuristic>)
    requires CanExpand(s)
    ensures var r := Round(s, limit, hs);
      && (forall k :: 0 <= k < |r.queue| ==> r.queue[k] < |r.nodes|)
      && QueueWeight(r.nodes, r.queue, limit) < QueueWeight(s.nodes, s.queue, limit)
  {
    ExpandBoards(s.nodes, s.queue[0], hs);
    DecidedWeight(s.nodes, s.queue, s.seen, Expand(s.nodes, s.queue[0], hs), limit, hs);
  }

  /** Deciding up to four new children of the front, one level below it, after it has
    * left the queue. */
  lemma DecidedWeight(nodes: seq<GameNode>, q: seq<nat>, seen: set<string>, expanded: seq<GameNode>, limit: int, hs: seq<Heuristic>)
    requires |q| > 0 && forall k :: 0 <= k < |q| ==> q[k] < |nodes|
    requires |nodes| <= |expanded| <= |nodes| + 4
    requires forall j :: 0 <= j < |nodes| ==> expanded[j].depth == nodes[j].depth
    requires forall j :: |nodes| <= j < |expanded| ==> IsBoard(expanded[j].grid) && expanded[j].depth == nodes[q[0]].depth + 1
    ensures var d := DecideFrom(Decided(expanded, q[1..], seen), |nodes|, limit, hs);
      && (forall k :: 0 <= k < |d.queue| ==> d.queue[k] < |d.nodes|)
      && QueueWeight(d.nodes, d.queue, limit) < QueueWeight(nodes, q, limit)
  {
    var waiting := Decided(expanded, q[1..], seen);
    var d := DecideFrom(waiting, |nodes|, limit, hs);
    DecideFromQueue(waiting, |nodes|, limit, hs);
    assert forall j :: 0 <= j < |expanded| ==> d.nodes[j].depth == expanded[j].depth;
    RoundDrops(nodes, expanded, d.nodes, q, q[1..], d.queue, limit);
  }

  /** The loop's invariant on a whole search state. */
  ghost predicate LoopInv(s: SearchState, current: Board, limit: int, hs: seq<Heuristic>) {
    SearchInv(s.nodes, s.done, s.queue, s.seen, |s.nodes|, current, limit, hs) && Arena(s.nodes) && Expanded(s.nodes, s.done, hs)
  }

  /** Under the invariant, a non-empty queue can be expanded. */
  lemma InvCanExpand(s: SearchState, current: Board, limit: int, hs: seq<Heuristic>)
    requires SearchInv(s.nodes, s.done, s.queue, s.seen, |s.nodes|, current, limit, hs) && |s.queue| > 0
    ensures CanExpand(s)
  {
  }

  /** A round keeps the invariant and the record of expansions. */
  lemma RoundInv(s: SearchState, current: Board, limit: int, hs: seq<Heuristic>)
    requires LoopInv(s, current, limit, hs) == true && |s.queue| > 0
    ensures CanExpand(s)
    ensures LoopInv(Round(s, limit, hs), current, limit, hs) == true
  {
    InvCanExpand(s, current, limit, hs);
    var x := s.queue[0];
    ExpandFacts(s.nodes, x, hs);
    var expanded := Expand(s.nodes, x, hs);
    ExpandInv(s.nodes, s.done, s.queue, s.seen, expanded, current, limit, hs);
    ExpandedAfterExpand(s.nodes, s.done, x, expanded, hs);
    var waiting := Decided(expanded, s.queue[1..], s.seen);
    DecideFromInv(waiting, s.done + {x}, |s.nodes|, current, limit, hs);
    var d := DecideFrom(waiting, |s.nodes|, limit, hs);
    ExpandedAfterScoring(expanded, d.nodes, s.done + {x}, hs);
  }

  /** The loop starts in a state satisfying the invariant. */
  lemma StartLoop(current: Board, limit: int, hs: seq<Heuristic>)
    requires IsGameBoard(current)
    ensures LoopInv(Start(current), current, limit, hs) == true
    ensures forall k :: 0 <= k < |Start(current).queue| ==> Start(current).queue[k] < |Start(current).nodes|
  {
    StartInv(current, limit, hs);
  }

  /** When the queue runs empty, the arena is the search tree of `current`. */
  lemma LoopDone(s: SearchState, current: Board, limit: int, hs: seq<Heuristic>)
    requires LoopInv(s, current, limit, hs) == true && s.queue == []
    ensures SearchTree(s.nodes, s.done, current, limit, hs) == true
  {
    FinishInv(s.nodes, s.done, s.seen, current, limit, hs);
  }
}
