/** The two searches of game/game.go: the breadth-first flood (bfs) and A*
    (astar), with their drawing and sleeping removed; they return what they
    would leave in level.Debug. */
module Search {
  import opened Grid

  /** bfs: FIFO flood from start over Neighbors. Returns the visited set,
      the map the source leaves in level.Debug, and, as a ghost, the number
      of positions ever put into the frontier. */
  method Bfs(g: Map, start: Pos) returns (visited: set<Pos>, ghost enqueued: nat)
    requires Confined(g, start)
    ensures start in visited
    ensures forall p :: p in visited && p != start ==> InBounds(g, p) && CanWalk(g, p)
    ensures Closed(g, visited)
    ensures forall p :: p in visited <==> Reachable(g, start, p)
    ensures enqueued == |visited|
  {
    var frontier := [start];
    visited := {start};
    enqueued := 1;
    ReachableRefl(g, start);
    while |frontier| > 0
      invariant start in visited && enqueued == |visited|
      invariant forall i :: 0 <= i < |frontier| ==> frontier[i] in visited
      invariant forall p :: p in visited ==> Found(g, start, p)
      invariant forall p, q :: p in visited && Step(g, p, q) && p !in frontier ==> q in visited
      decreases Cells(g) - visited, |frontier|
    {
      var current := frontier[0];
      frontier := frontier[1..];
      frontier, visited, enqueued := Visit(g, start, current, frontier, visited, enqueued);
    }
    forall p | Reachable(g, start, p) ensures p in visited {
      ClosedHoldsReachable(g, visited, start, p);
    }
  }

  /** The entries of ns that are not in seen, in the order of ns. */
  function Unseen(ns: seq<Pos>, seen: set<Pos>): seq<Pos>
  {
    if |ns| == 0 then []
    else Unseen(ns[..|ns| - 1], seen) + (if ns[|ns| - 1] in seen then [] else [ns[|ns| - 1]])
  }

  /** Unseen keeps exactly the entries of ns outside seen. */
  lemma {:induction false} UnseenMembers(ns: seq<Pos>, seen: set<Pos>)
    ensures forall q :: q in Unseen(ns, seen) <==> q in ns && q !in seen
    ensures (forall q :: q in ns ==> q in seen) ==> Unseen(ns, seen) == []
    decreases |ns|
  {
    if |ns| > 0 {
      var init := ns[..|ns| - 1];
      UnseenMembers(init, seen);
      assert ns == init + [ns[|ns| - 1]];
    }
  }

  lemma UnseenSnoc(ns: seq<Pos>, k: nat, seen: set<Pos>)
    requires k < |ns|
    ensures Unseen(ns[..k + 1], seen) == Unseen(ns[..k], seen) + (if ns[k] in seen then [] else [ns[k]])
  {
    assert ns[..k + 1][..k] == ns[..k];
  }

  /** The inner loop of bfs: every neighbour of current that was not yet
      visited is marked and enqueued, in getNeighbors order. */
  method Visit(g: Map, start: Pos, current: Pos, frontier: seq<Pos>, visited: set<Pos>, ghost enqueued: nat)
    returns (frontier': seq<Pos>, visited': set<Pos>, ghost enqueued': nat)
    requires Confined(g, start) && current in visited && enqueued == |visited|
    requires forall i :: 0 <= i < |frontier| ==> frontier[i] in visited
    requires forall p :: p in visited ==> Found(g, start, p)
    requires forall p, q :: p in visited && Step(g, p, q) && p !in frontier && p != current ==> q in visited
    ensures Interior(g, current)
    ensures visited' == visited + set q | q in Neighbors(g, current)
    ensures frontier' == frontier + Unseen(Neighbors(g, current), visited)
    ensures enqueued' == |visited'| && (visited' == visited ==> frontier' == frontier)
    ensures forall i :: 0 <= i < |frontier'| ==> frontier'[i] in visited'
    ensures forall p :: p in visited' ==> Found(g, start, p)
    ensures forall p, q :: p in visited' && Step(g, p, q) && p !in frontier' ==> q in visited'
  {
    assert Found(g, start, current);
    var ns := Neighbors(g, current);
    assert forall i, j :: 0 <= i < j < |ns| ==> ns[i] != ns[j] by {
      forall i, j | 0 <= i < j < |ns| ensures ns[i] != ns[j] {
        assert Rank(current, ns[i]) < Rank(current, ns[j]);
      }
    }
    frontier', visited', enqueued' := Enqueue(ns, frontier, visited, enqueued);
    VisitDone(g, start, current, frontier, visited, ns);
  }

  /** The loop over getNeighbors' result: each position not yet visited is
      appended to the frontier and marked, once. */
  method Enqueue(ns: seq<Pos>, frontier: seq<Pos>, visited: set<Pos>, ghost enqueued: nat)
    returns (frontier': seq<Pos>, visited': set<Pos>, ghost enqueued': nat)
    requires forall i, j :: 0 <= i < j < |ns| ==> ns[i] != ns[j]
    requires enqueued == |visited|
    ensures visited' == visited + set q | q in ns
    ensures frontier' == frontier + Unseen(ns, visited)
    ensures enqueued' == |visited'|
  {
    frontier', visited', enqueued' := frontier, visited, enqueued;
    for k := 0 to |ns|
      invariant visited' == visited + Elems(ns[..k])
      invariant frontier' == frontier + Unseen(ns[..k], visited)
      invariant enqueued' == |visited'|
    {
      var next := ns[k];
      if next in visited' {
        EnqueueKeep(ns, k, frontier, visited, frontier', visited');
      } else {
        EnqueuePush(ns, k, frontier, visited, frontier', visited');
        frontier' := frontier' + [next];
        visited' := visited' + {next};
        enqueued' := enqueued' + 1;
      }
    }
    assert ns[..|ns|] == ns;
  }

  /** The positions of a sequence. */
  ghost function Elems(s: seq<Pos>): set<Pos>
  {
    set q | q in s
  }

  /** One step of Enqueue's loop, from the state f, v after the first k
      positions, when ns[k] is already marked: it was visited before the
      round (ns has no repeats), and nothing changes. */
  lemma EnqueueKeep(ns: seq<Pos>, k: nat, frontier: seq<Pos>, visited: set<Pos>, f: seq<Pos>, v: set<Pos>)
    requires forall i, j :: 0 <= i < j < |ns| ==> ns[i] != ns[j]
    requires k < |ns| && ns[k] in v
    requires v == visited + Elems(ns[..k]) && f == frontier + Unseen(ns[..k], visited)
    ensures v == visited + Elems(ns[..k + 1]) && f == frontier + Unseen(ns[..k + 1], visited)
  {
    ElemsSnoc(ns, k);
    UnseenSnoc(ns, k, visited);
  }

  /** The same step when ns[k] is not marked: it is appended and marked,
      and the count grows by one. */
  lemma EnqueuePush(ns: seq<Pos>, k: nat, frontier: seq<Pos>, visited: set<Pos>, f: seq<Pos>, v: set<Pos>)
    requires forall i, j :: 0 <= i < j < |ns| ==> ns[i] != ns[j]
    requires k < |ns| && ns[k] !in v
    requires v == visited + Elems(ns[..k]) && f == frontier + Unseen(ns[..k], visited)
    ensures v + {ns[k]} == visited + Elems(ns[..k + 1])
    ensures f + [ns[k]] == frontier + Unseen(ns[..k + 1], visited)
    ensures |v + {ns[k]}| == |v| + 1
  {
    ElemsSnoc(ns, k);
    UnseenSnoc(ns, k, visited);
    var u := Unseen(ns[..k], visited);
    assert frontier + u + [ns[k]] == frontier + (u + [ns[k]]);
  }

  /** ns[k] joins the positions of the prefix and, ns having no repeats,
      was not among them. */
  lemma ElemsSnoc(ns: seq<Pos>, k: nat)
    requires forall i, j :: 0 <= i < j < |ns| ==> ns[i] != ns[j]
    requires k < |ns|
    ensures Elems(ns[..k + 1]) == Elems(ns[..k]) + {ns[k]}
    ensures ns[k] !in Elems(ns[..k])
  {
    assert ns[..k + 1] == ns[..k] + [ns[k]];
  }

  /** After the inner loop of bfs, what bfs knows of its frontier and
      visited set still holds, now for current as well. */
  lemma VisitDone(g: Map, start: Pos, current: Pos, frontier: seq<Pos>, visited: set<Pos>, ns: seq<Pos>)
    requires current in visited && forall q :: q in ns <==> Step(g, current, q)
    requires forall i :: 0 <= i < |frontier| ==> frontier[i] in visited
    requires forall p :: p in visited ==> Found(g, start, p)
    requires forall p, q :: p in visited && Step(g, p, q) && p !in frontier && p != current ==> q in visited
    ensures var v := visited + set q | q in ns; var f := frontier + Unseen(ns, visited);
      (v == visited ==> f == frontier) &&
      (forall i :: 0 <= i < |f| ==> f[i] in v) &&
      (forall p :: p in v ==> Found(g, start, p)) &&
      (forall p, q :: p in v && Step(g, p, q) && p !in f ==> q in v)
  {
    var v := visited + set q | q in ns;
    var f := frontier + Unseen(ns, visited);
    UnseenMembers(ns, visited);
    forall i | 0 <= i < |f| ensures f[i] in v {
      if i >= |frontier| {
        assert f[i] in Unseen(ns, visited);
      }
    }
    forall p | p in v ensures Found(g, start, p) {
      if p !in visited {
        ReachableStep(g, start, current, p);
      }
    }
    forall p, q | p in v && Step(g, p, q) && p !in f ensures q in v {
      if p == current {
        assert q in ns;
      }
    }
  }

  /** What bfs knows of a visited position: it is in the map, walkable
      unless it is start, and reachable from start. */
  ghost predicate Found(g: Map, start: Pos, p: Pos)
  {
    InBounds(g, p) && (p != start ==> CanWalk(g, p)) && Reachable(g, start, p)
  }

  /** A frontier entry: a position and its priority. */
  datatype Entry = Entry(pos: Pos, priority: int)

  /** The positions held by a frontier. */
  function Positions(f: seq<Entry>): (r: set<Pos>)
    ensures forall p :: p in r <==> exists i :: 0 <= i < |f| && f[i].pos == p
  {
    set i | 0 <= i < |f| :: f[i].pos
  }

  lemma AppendPositions(f: seq<Entry>, e: Entry)
    ensures Positions(f + [e]) == Positions(f) + {e.pos}
  {
    var h := f + [e];
    forall p | p in Positions(f) ensures p in Positions(h) {
      var i :| 0 <= i < |f| && f[i].pos == p;
      assert h[i].pos == p;
    }
    assert h[|f|].pos == e.pos;
  }

  /** Dropping entry k loses at most the position of that entry. */
  lemma RemovePositions(f: seq<Entry>, k: nat)
    requires k < |f|
    ensures Positions(f[..k] + f[k + 1..]) <= Positions(f)
    ensures Positions(f) - {f[k].pos} <= Positions(f[..k] + f[k + 1..])
  {
    var h := f[..k] + f[k + 1..];
    assert forall i :: 0 <= i < |h| ==> h[i] == if i < k then f[i] else f[i + 1];
    forall p | p in Positions(f) - {f[k].pos} ensures p in Positions(h) {
      var i :| 0 <= i < |f| && f[i].pos == p;
      assert h[if i < k then i else i - 1].pos == p;
    }
  }

  /** The entry the source pops after sort.Stable: among the entries of least
      priority, the one that stands first. */
  function PopIndex(f: seq<Entry>): (k: nat)
    requires |f| > 0
    ensures k < |f|
    ensures forall i :: 0 <= i < |f| ==> f[k].priority <= f[i].priority
    ensures forall i :: 0 <= i < k ==> f[i].priority > f[k].priority
  {
    if |f| == 1 then 0
    else
      var k := PopIndex(f[1..]);
      if f[0].priority <= f[1 + k].priority then 0 else 1 + k
  }

  /** The local state of astar: frontier, cameFrom and costSoFar. */
  datatype State = State(frontier: seq<Entry>, cameFrom: map<Pos, Pos>, cost: map<Pos, nat>)

  /** One relaxation of astar's inner loop: next is given cost
      cost[cur] + 1, parent cur and a frontier entry with priority
      newCost + Manhattan(goal, next), but only if next is new or that cost
      is strictly lower than the one it has. */
  function Relax(s: State, cur: Pos, next: Pos, goal: Pos): State
    requires cur in s.cost
  {
    var newCost := s.cost[cur] + 1;
    if next !in s.cost || newCost < s.cost[next] then
      State(s.frontier + [Entry(next, newCost + Manhattan(goal, next))],
            s.cameFrom[next := cur], s.cost[next := newCost])
    else
      s
  }

  /** What one relaxation does: next gets cost cur + 1 and parent cur, and
      an entry is pushed, exactly when that is new or strictly cheaper;
      nothing else changes, and no cost ever grows. */
  lemma RelaxEffect(s: State, cur: Pos, next: Pos, goal: Pos)
    requires cur in s.cost
    ensures var r := Relax(s, cur, next, goal);
      r.cost.Keys == s.cost.Keys + {next} &&
      s.cameFrom.Keys <= r.cameFrom.Keys <= s.cameFrom.Keys + {next} &&
      r.cost[next] <= s.cost[cur] + 1 &&
      (next in s.cost ==> r.cost[next] <= s.cost[next]) &&
      (forall p :: p in s.cost && p != next ==> r.cost[p] == s.cost[p]) &&
      (forall p :: p in s.cameFrom && p != next ==> r.cameFrom[p] == s.cameFrom[p])
    ensures var r := Relax(s, cur, next, goal);
      r.frontier == s.frontier <==> !(next !in s.cost || s.cost[cur] + 1 < s.cost[next])
    ensures var r := Relax(s, cur, next, goal);
      r.frontier == s.frontier ==> r == s
    ensures var r := Relax(s, cur, next, goal);
      r.frontier != s.frontier ==>
        r.cost[next] == s.cost[cur] + 1 && next in r.cameFrom && r.cameFrom[next] == cur &&
        r.frontier == s.frontier + [Entry(next, r.cost[next] + Manhattan(goal, next))]
  {
  }

  /** The invariant of astar's main loop. */
  ghost predicate Inv(g: Map, start: Pos, goal: Pos, s: State)
  {
    Rooted(start, s) && Bounded(g, s) && Linked(g, start, s) && Tracked(goal, s)
  }

  /** cameFrom[start] == start, costSoFar[start] == 0, and both maps have the same keys. */
  ghost predicate Rooted(start: Pos, s: State)
  {
    s.cameFrom.Keys == s.cost.Keys && start in s.cost && s.cost[start] == 0 && s.cameFrom[start] == start
  }

  /** Known positions are cells, and every cost is below their number. */
  ghost predicate Bounded(g: Map, s: State)
  {
    forall p :: p in s.cost ==> InBounds(g, p) && s.cost[p] < |s.cost.Keys|
  }

  /** Every other cameFrom link is a Step from a known position of strictly lower cost. */
  ghost predicate Linked(g: Map, start: Pos, s: State)
  {
    forall p {:trigger s.cameFrom[p]} :: p in s.cameFrom && p in s.cost && p != start ==>
      s.cameFrom[p] in s.cost && s.cost[s.cameFrom[p]] < s.cost[p] && Step(g, s.cameFrom[p], p)
  }

  /** Frontier entries are known positions, and a known goal is still in the frontier. */
  ghost predicate Tracked(goal: Pos, s: State)
  {
    Positions(s.frontier) <= s.cost.Keys && (goal in s.cost ==> goal in Positions(s.frontier))
  }

  /** Every expanded position (one with no entry left in the frontier)
      has all its successors in costSoFar. */
  ghost predicate Expanded(g: Map, s: State)
  {
    forall p, q :: p in s.cost && p !in Positions(s.frontier) && Step(g, p, q) ==> q in s.cost
  }

  /** Expanded, except perhaps for the position `cur` being expanded now. */
  ghost predicate ExpandedBut(g: Map, s: State, cur: Pos)
  {
    forall p, q :: p in s.cost && p != cur && p !in Positions(s.frontier) && Step(g, p, q) ==> q in s.cost
  }

  /** Pairs (p, v) with v below the cost that p can still be lowered from;
      an unknown position may still take any cost below n. */
  ghost function Potential(cost: map<Pos, nat>, cells: set<Pos>, n: nat): set<(Pos, nat)>
  {
    set p, v: nat | p in cells && v < n && (p !in cost || v < cost[p]) :: (p, v)
  }

  lemma RelaxPotential(s: State, cur: Pos, next: Pos, goal: Pos, cells: set<Pos>, n: nat)
    requires cur in s.cost && next in cells && s.cost[cur] + 1 < n
    ensures var r := Relax(s, cur, next, goal);
      Potential(r.cost, cells, n) <= Potential(s.cost, cells, n) &&
      (r.frontier != s.frontier ==> Potential(r.cost, cells, n) < Potential(s.cost, cells, n))
  {
    var r := Relax(s, cur, next, goal);
    if r.frontier != s.frontier {
      var c := s.cost[cur] + 1;
      assert (next, c) in Potential(s.cost, cells, n);
      assert (next, c) !in Potential(r.cost, cells, n);
    }
  }

  /** A push keeps the root. */
  lemma RelaxRooted(start: Pos, s: State, cur: Pos, next: Pos, goal: Pos)
    requires Rooted(start, s) && cur in s.cost && next != start
    requires next !in s.cost || s.cost[cur] + 1 < s.cost[next]
    ensures Rooted(start, Relax(s, cur, next, goal))
  {
  }

  /** A push keeps every cost below the number of known positions. */
  lemma RelaxBounded(g: Map, s: State, cur: Pos, next: Pos, goal: Pos)
    requires Bounded(g, s) && cur in s.cost && InBounds(g, next)
    requires next !in s.cost || s.cost[cur] + 1 < s.cost[next]
    ensures Bounded(g, Relax(s, cur, next, goal))
  {
    var r := Relax(s, cur, next, goal);
    assert r.cost.Keys == s.cost.Keys + {next};
    assert next !in s.cost ==> |r.cost.Keys| == |s.cost.Keys| + 1;
    assert |s.cost.Keys| <= |r.cost.Keys|;
    forall p | p in r.cost ensures r.cost[p] < |r.cost.Keys| {
      if p != next { assert r.cost[p] == s.cost[p]; }
    }
  }

  /** A push across a Step keeps every parent link a Step down in cost. */
  lemma RelaxLinked(g: Map, start: Pos, s: State, cur: Pos, next: Pos, goal: Pos)
    requires Linked(g, start, s) && s.cameFrom.Keys == s.cost.Keys && cur in s.cost && Step(g, cur, next)
    requires next !in s.cost || s.cost[cur] + 1 < s.cost[next]
    ensures Linked(g, start, Relax(s, cur, next, goal))
  {
    var r := Relax(s, cur, next, goal);
    forall p | p in r.cameFrom && p in r.cost && p != start
      ensures r.cameFrom[p] in r.cost && r.cost[r.cameFrom[p]] < r.cost[p] && Step(g, r.cameFrom[p], p)
    {
      if p != next {
        assert r.cameFrom[p] == s.cameFrom[p];
        assert r.cost[p] == s.cost[p];
      }
    }
  }

  /** A push keeps the frontier inside the known positions. */
  lemma RelaxTracked(s: State, cur: Pos, next: Pos, goal: Pos)
    requires Tracked(goal, s) && cur in s.cost
    requires next !in s.cost || s.cost[cur] + 1 < s.cost[next]
    ensures Tracked(goal, Relax(s, cur, next, goal))
  {
    var c := s.cost[cur] + 1;
    AppendPositions(s.frontier, Entry(next, c + Manhattan(goal, next)));
  }

  lemma RelaxKeepsInv(g: Map, start: Pos, goal: Pos, s: State, cur: Pos, next: Pos)
    requires Inv(g, start, goal, s) && cur in s.cost && Step(g, cur, next)
    ensures Inv(g, start, goal, Relax(s, cur, next, goal))
  {
    if next !in s.cost || s.cost[cur] + 1 < s.cost[next] {
      RelaxRooted(start, s, cur, next, goal);
      RelaxBounded(g, s, cur, next, goal);
      RelaxLinked(g, start, s, cur, next, goal);
      RelaxTracked(s, cur, next, goal);
    }
  }

  /** The back-pointer walk of astar, from goal to start, in the order it
      visits positions. */
  ghost predicate BackWalk(g: Map, t: seq<Pos>, goal: Pos, start: Pos)
  {
    |t| >= 1 && t[0] == goal && t[|t| - 1] == start &&
    forall i :: 0 <= i < |t| - 1 ==> Step(g, t[i + 1], t[i])
  }

  lemma {:induction false} BackWalkReachable(g: Map, t: seq<Pos>, goal: Pos, start: Pos)
    requires BackWalk(g, t, goal, start)
    ensures Reachable(g, start, goal)
    decreases |t|
  {
    if |t| == 1 {
      ReachableRefl(g, start);
    } else {
      BackWalkReachable(g, t[1..], t[1], start);
      ReachableStep(g, start, t[1], goal);
    }
  }

  /** t runs from goal to start, each position followed by its cameFrom
      entry in s. */
  ghost predicate CameFromChain(s: State, t: seq<Pos>, goal: Pos, start: Pos)
  {
    |t| >= 1 && t[0] == goal && t[|t| - 1] == start &&
    forall i :: 0 <= i < |t| - 1 ==> t[i] in s.cameFrom && t[i + 1] == s.cameFrom[t[i]]
  }

  /** The pop of s can be expanded: there is an entry, and the position
      PopIndex picks is known and has its four neighbours in the map. */
  ghost predicate Poppable(g: Map, s: State)
  {
    |s.frontier| > 0 && s.frontier[PopIndex(s.frontier)].pos in s.cost &&
    Interior(g, s.frontier[PopIndex(s.frontier)].pos)
  }

  /** Relax cur against each position of ns, in order. */
  function RelaxAll(s: State, cur: Pos, ns: seq<Pos>, goal: Pos): State
    requires cur in s.cost
    decreases |ns|
  {
    if |ns| == 0 then s else RelaxAll(Relax(s, cur, ns[0], goal), cur, ns[1..], goal)
  }

  /** One round of astar's main loop that does not stop: pop the entry
      PopIndex picks and relax every neighbour of its position. */
  ghost function Round(g: Map, goal: Pos, s: State): State
    requires Poppable(g, s)
  {
    var k := PopIndex(s.frontier);
    var cur := s.frontier[k].pos;
    RelaxAll(s.(frontier := s.frontier[..k] + s.frontier[k + 1..]), cur, Neighbors(g, cur), goal)
  }

  /** The states astar's main loop passes through: the initial state, then
      one Round per state that does not pop goal. */
  ghost predicate Trace(g: Map, start: Pos, goal: Pos, t: seq<State>)
  {
    |t| >= 1 && t[0] == Initial(start) &&
    forall i :: 0 <= i < |t| - 1 ==>
      Poppable(g, t[i]) && t[i].frontier[PopIndex(t[i].frontier)].pos != goal && t[i + 1] == Round(g, goal, t[i])
  }

  /** What astar leaves after the rounds of trace: an exhausted frontier
      and no marks, or goal popped and the cameFrom chain from goal to
      start marked. */
  ghost predicate Searched(g: Map, start: Pos, goal: Pos, trace: seq<State>, trail: seq<Pos>)
  {
    Trace(g, start, goal, trace) &&
    var f := trace[|trace| - 1];
    (trail == [] <==> f.frontier == []) &&
    (trail != [] ==> f.frontier[PopIndex(f.frontier)].pos == goal && CameFromChain(f, trail, goal, start))
  }

  lemma TraceExtend(g: Map, start: Pos, goal: Pos, t: seq<State>, r: State)
    requires Trace(g, start, goal, t)
    requires Poppable(g, t[|t| - 1]) && t[|t| - 1].frontier[PopIndex(t[|t| - 1].frontier)].pos != goal
    requires r == Round(g, goal, t[|t| - 1])
    ensures Trace(g, start, goal, t + [r])
  {
    var u := t + [r];
    forall i | 0 <= i < |u| - 1
      ensures Poppable(g, u[i]) && u[i].frontier[PopIndex(u[i].frontier)].pos != goal && u[i + 1] == Round(g, goal, u[i])
    {
      assert u[i] == t[i];
      if i < |t| - 1 {
        assert u[i + 1] == t[i + 1];
      }
    }
  }

  /** astar: returns the back-pointer chain that the source marks in
      level.Debug when it pops goal (goal first, start last), or the empty
      sequence when the frontier runs out; trace holds the states of its
      rounds. */
  method Astar(g: Map, start: Pos, goal: Pos) returns (trail: seq<Pos>, ghost trace: seq<State>)
    requires Confined(g, start)
    ensures Searched(g, start, goal, trace, trail)
    ensures trail != [] ==> BackWalk(g, trail, goal, start)
    ensures trail == [] <==> !Reachable(g, start, goal)
    ensures forall i, j :: 0 <= i < j < |trail| ==> trail[i] != trail[j]
  {
    var s := Initial(start);
    trace := [s];
    ghost var cells := Cells(g);
    ghost var n := |cells| + 1;
    ReachableRefl(g, start);
    InitialInv(g, start, goal);
    while |s.frontier| > 0
      invariant Inv(g, start, goal, s) && Expanded(g, s)
      invariant Trace(g, start, goal, trace) && trace[|trace| - 1] == s
      decreases Potential(s.cost, cells, n), |s.frontier|
    {
      var k := PopIndex(s.frontier);
      if s.frontier[k].pos == goal {
        trail := BackPointers(g, start, goal, s);
        BackWalkReachable(g, trail, goal, start);
        return;
      }
      ghost var prev := s;
      s := Advance(g, start, goal, s, k, cells, n);
      TraceExtend(g, start, goal, trace, s);
      trace := trace + [s];
    }
    trail := [];
    Exhausted(g, start, goal, s);
  }

  /** The state astar starts from: start in the frontier with priority 1,
      its own parent, at cost 0. */
  function Initial(start: Pos): (s: State)
    ensures s.frontier == [Entry(start, 1)] && s.cameFrom.Keys == s.cost.Keys == {start}
    ensures s.cameFrom[start] == start && s.cost[start] == 0
  {
    State([Entry(start, 1)], map[start := start], map[start := 0])
  }

  lemma InitialInv(g: Map, start: Pos, goal: Pos)
    requires Interior(g, start)
    ensures Inv(g, start, goal, Initial(start)) && Expanded(g, Initial(start))
  {
    var s := Initial(start);
    assert Positions(s.frontier) == {start} by {
      assert s.frontier[0].pos == start;
    }
  }

  /** With the frontier empty every known position is expanded, so the known
      positions are Step-closed and goal, never reached, is unreachable. */
  lemma Exhausted(g: Map, start: Pos, goal: Pos, s: State)
    requires Inv(g, start, goal, s) && Expanded(g, s) && s.frontier == []
    ensures !Reachable(g, start, goal)
  {
    assert Closed(g, s.cost.Keys);
    if Reachable(g, start, goal) {
      ClosedHoldsReachable(g, s.cost.Keys, start, goal);
    }
  }

  /** One round of astar's main loop that does not find goal: drop the
      entry PopIndex picks and expand its position. */
  method Advance(g: Map, start: Pos, goal: Pos, s: State, k: nat, ghost cells: set<Pos>, ghost n: nat)
    returns (r: State)
    requires Confined(g, start) && cells == Cells(g) && n == |cells| + 1
    requires Inv(g, start, goal, s) && Expanded(g, s)
    requires |s.frontier| > 0 && k == PopIndex(s.frontier) && s.frontier[k].pos != goal
    ensures Poppable(g, s) && r == Round(g, goal, s)
    ensures Inv(g, start, goal, r) && Expanded(g, r)
    ensures Potential(r.cost, cells, n) < Potential(s.cost, cells, n) ||
            (Potential(r.cost, cells, n) == Potential(s.cost, cells, n) && |r.frontier| < |s.frontier|)
  {
    var current := s.frontier[k].pos;
    PopKeepsInv(g, start, goal, s, k);
    KnownInterior(g, start, s, current);
    var popped := s.(frontier := s.frontier[..k] + s.frontier[k + 1..]);
    r := Expand(g, start, goal, popped, current, cells, n);
    RoundIs(g, goal, s, k, r);
  }

  lemma RoundIs(g: Map, goal: Pos, s: State, k: nat, r: State)
    requires |s.frontier| > 0 && k == PopIndex(s.frontier)
    requires s.frontier[k].pos in s.cost && Interior(g, s.frontier[k].pos)
    requires r == RelaxAll(s.(frontier := s.frontier[..k] + s.frontier[k + 1..]), s.frontier[k].pos,
                           Neighbors(g, s.frontier[k].pos), goal)
    ensures Poppable(g, s) && r == Round(g, goal, s)
  {
  }

  /** Every position astar knows is reachable from start, along cameFrom. */
  lemma {:induction false} KnownReachable(g: Map, start: Pos, s: State, p: Pos)
    requires Rooted(start, s) && Linked(g, start, s) && p in s.cost
    ensures Reachable(g, start, p)
    decreases s.cost[p]
  {
    if p == start {
      ReachableRefl(g, start);
    } else {
      var q := s.cameFrom[p];
      assert q in s.cost && s.cost[q] < s.cost[p] && Step(g, q, p);
      KnownReachable(g, start, s, q);
      ReachableStep(g, start, q, p);
    }
  }

  /** So, on a confined map, every position astar knows is interior. */
  lemma KnownInterior(g: Map, start: Pos, s: State, p: Pos)
    requires Confined(g, start) && Rooted(start, s) && Linked(g, start, s) && p in s.cost
    ensures Interior(g, p)
  {
    KnownReachable(g, start, s, p);
  }

  /** Removing the popped entry k keeps the invariant, as long as it is not the goal's. */
  lemma PopKeepsInv(g: Map, start: Pos, goal: Pos, s: State, k: nat)
    requires Inv(g, start, goal, s) && Expanded(g, s) && k < |s.frontier| && s.frontier[k].pos != goal
    ensures var r := s.(frontier := s.frontier[..k] + s.frontier[k + 1..]);
      Inv(g, start, goal, r) && ExpandedBut(g, r, s.frontier[k].pos) && s.frontier[k].pos in r.cost
  {
    RemovePositions(s.frontier, k);
  }

  /** The inner loop of astar: relax every neighbour of current, in
      getNeighbors order. */
  method Expand(g: Map, start: Pos, goal: Pos, s: State, current: Pos, ghost cells: set<Pos>, ghost n: nat)
    returns (r: State)
    requires cells == Cells(g) && n == |cells| + 1
    requires Inv(g, start, goal, s) && ExpandedBut(g, s, current) && current in s.cost && Interior(g, current)
    ensures r == RelaxAll(s, current, Neighbors(g, current), goal)
    ensures Inv(g, start, goal, r) && Expanded(g, r)
    ensures Potential(r.cost, cells, n) <= Potential(s.cost, cells, n)
    ensures Potential(r.cost, cells, n) == Potential(s.cost, cells, n) ==> r.frontier == s.frontier
  {
    r := s;
    var ns := Neighbors(g, current);
    for i := 0 to |ns|
      invariant Relaxing(g, start, goal, s, r, current, ns, i, cells, n)
      invariant RelaxAll(r, current, ns[i..], goal) == RelaxAll(s, current, ns, goal)
    {
      RelaxStep(g, start, goal, s, r, current, ns, i, cells, n);
      assert ns[i..][0] == ns[i] && ns[i..][1..] == ns[i + 1..];
      r := Relax(r, current, ns[i], goal);
    }
    ExpandDone(g, r, current, ns);
  }

  /** The invariant of Expand's loop: the state r reached from s by the
      relaxations so far. */
  ghost predicate Relaxing(g: Map, start: Pos, goal: Pos, s: State, r: State, cur: Pos, ns: seq<Pos>, i: nat,
                          cells: set<Pos>, n: nat)
  {
    Inv(g, start, goal, r) && cur in r.cost && ExpandedBut(g, r, cur) &&
    i <= |ns| && (forall j :: 0 <= j < i ==> ns[j] in r.cost) &&
    Potential(r.cost, cells, n) <= Potential(s.cost, cells, n) &&
    (r.frontier != s.frontier ==> Potential(r.cost, cells, n) < Potential(s.cost, cells, n))
  }

  lemma ExpandDone(g: Map, s: State, cur: Pos, ns: seq<Pos>)
    requires ExpandedBut(g, s, cur) && cur in s.cost
    requires forall q :: Step(g, cur, q) ==> q in ns
    requires forall j :: 0 <= j < |ns| ==> ns[j] in s.cost
    ensures Expanded(g, s)
  {
  }

  /** One relaxation keeps the invariant of astar, never raises the
      potential and lowers it whenever it pushes. */
  lemma RelaxStep(g: Map, start: Pos, goal: Pos, s0: State, s: State, cur: Pos, ns: seq<Pos>, i: nat,
                  cells: set<Pos>, n: nat)
    requires cells == Cells(g) && n == |cells| + 1
    requires Relaxing(g, start, goal, s0, s, cur, ns, i, cells, n) && i < |ns| && Step(g, cur, ns[i])
    ensures Relaxing(g, start, goal, s0, Relax(s, cur, ns[i], goal), cur, ns, i + 1, cells, n)
  {
    SubsetCard(s.cost.Keys, cells);
    RelaxPotential(s, cur, ns[i], goal, cells, n);
    RelaxKeepsInv(g, start, goal, s, cur, ns[i]);
    RelaxKeepsProgress(g, s, cur, ns, i, goal);
  }

  /** A relaxation leaves every expanded position expanded and every known
      position known. */
  lemma RelaxKeepsProgress(g: Map, s: State, cur: Pos, ns: seq<Pos>, i: nat, goal: Pos)
    requires ExpandedBut(g, s, cur) && cur in s.cost && i < |ns|
    requires forall j :: 0 <= j < i ==> ns[j] in s.cost
    ensures var r := Relax(s, cur, ns[i], goal);
      ExpandedBut(g, r, cur) && cur in r.cost && forall j :: 0 <= j < i + 1 ==> ns[j] in r.cost
  {
    var r := Relax(s, cur, ns[i], goal);
    if r != s {
      AppendPositions(s.frontier, r.frontier[|r.frontier| - 1]);
    }
  }

  /** The back-walk of astar: from goal, follow cameFrom until start. */
  method BackPointers(g: Map, start: Pos, goal: Pos, s: State) returns (trail: seq<Pos>)
    requires Rooted(start, s) && Linked(g, start, s) && goal in s.cost
    ensures CameFromChain(s, trail, goal, start)
    ensures BackWalk(g, trail, goal, start)
    ensures forall i, j :: 0 <= i < j < |trail| ==> trail[i] != trail[j]
  {
    var p := goal;
    trail := [];
    while p != start
      invariant p in s.cost && (trail + [p])[0] == goal
      invariant BackChain(g, s, trail + [p])
      decreases s.cost[p]
    {
      BackExtend(g, start, s, trail + [p]);
      trail := trail + [p];
      p := s.cameFrom[p];
    }
    trail := trail + [p];
    ChainDistinct(g, s, trail);
  }

  /** Each position of t is known, and the next one is its cameFrom
      entry: a Step back to it from a position of strictly lower cost. */
  ghost predicate BackChain(g: Map, s: State, t: seq<Pos>)
  {
    (forall i :: 0 <= i < |t| ==> t[i] in s.cost) &&
    (forall i :: 0 <= i < |t| - 1 ==>
       t[i] in s.cameFrom && t[i + 1] == s.cameFrom[t[i]] &&
       Step(g, t[i + 1], t[i]) && s.cost[t[i + 1]] < s.cost[t[i]])
  }

  lemma BackExtend(g: Map, start: Pos, s: State, t: seq<Pos>)
    requires Rooted(start, s) && Linked(g, start, s)
    requires BackChain(g, s, t) && |t| > 0 && t[|t| - 1] != start
    ensures var p := t[|t| - 1];
      s.cameFrom[p] in s.cost && s.cost[s.cameFrom[p]] < s.cost[p] && BackChain(g, s, t + [s.cameFrom[p]])
  {
    var p := t[|t| - 1];
    assert Step(g, s.cameFrom[p], p);
    var u := t + [s.cameFrom[p]];
    forall i | 0 <= i < |u| - 1
      ensures u[i] in s.cameFrom && u[i + 1] == s.cameFrom[u[i]] && Step(g, u[i + 1], u[i]) && s.cost[u[i + 1]] < s.cost[u[i]]
    {
      if i < |t| - 1 {
        assert u[i] == t[i] && u[i + 1] == t[i + 1];
      }
    }
  }

  /** Costs strictly fall along a chain, so no position occurs twice. */
  lemma {:induction false} ChainDistinct(g: Map, s: State, t: seq<Pos>)
    requires BackChain(g, s, t)
    ensures forall i, j :: 0 <= i < j < |t| ==> s.cost[t[i]] > s.cost[t[j]]
    ensures forall i, j :: 0 <= i < j < |t| ==> t[i] != t[j]
    decreases |t|
  {
    if |t| > 1 {
      var u := t[..|t| - 1];
      assert BackChain(g, s, u) by {
        forall i | 0 <= i < |u| - 1
          ensures u[i] in s.cameFrom && u[i + 1] == s.cameFrom[u[i]] && Step(g, u[i + 1], u[i]) && s.cost[u[i + 1]] < s.cost[u[i]]
        {
          assert u[i] == t[i] && u[i + 1] == t[i + 1];
        }
      }
      ChainDistinct(g, s, u);
      assert forall i :: 0 <= i < |u| ==> u[i] == t[i];
      assert s.cost[t[|t| - 1]] < s.cost[t[|t| - 2]];
    }
  }
}
