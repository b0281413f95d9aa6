/** The move table and the reachability pass of q4.py: make_movements keeps
    one target per (state, letter), the last transition listed winning, and
    remove_unreachable runs a breadth-first search from the start states. */
module Reach {
  import opened Common

  type Move<S(==)> = map<(S, Symbol), S>

  // ---------------------------------------------------------------------------
  // The move table

  /** The move dict: later transitions overwrite earlier ones. */
  function Moves<S(==)>(ts: seq<(S, Symbol, S)>): Move<S> {
    if ts == [] then map[]
    else
      var (f, l, t) := ts[|ts| - 1];
      Moves(ts[..|ts| - 1])[(f, l) := t]
  }

  /** Transition k is the last one listed for key. */
  ghost predicate LastFor<S>(ts: seq<(S, Symbol, S)>, key: (S, Symbol), k: int) {
    && 0 <= k < |ts|
    && (ts[k].0, ts[k].1) == key
    && forall k' :: k < k' < |ts| ==> (ts[k'].0, ts[k'].1) != key
  }

  /** A key has an entry iff some transition has that state and letter, and the
      entry is the target of the last such transition. */
  lemma {:induction false} MovesSpec<S>(ts: seq<(S, Symbol, S)>, key: (S, Symbol))
    ensures key in Moves(ts) <==> exists k :: 0 <= k < |ts| && (ts[k].0, ts[k].1) == key
    ensures key in Moves(ts) ==> exists k :: LastFor(ts, key, k) && ts[k].2 == Moves(ts)[key]
  {
    if ts != [] {
      var init := ts[..|ts| - 1];
      var (f, l, t) := ts[|ts| - 1];
      MovesSpec(init, key);
      if (f, l) == key {
        assert LastFor(ts, key, |ts| - 1);
      } else {
        if key in Moves(ts) {
          var k :| LastFor(init, key, k) && init[k].2 == Moves(init)[key];
          assert LastFor(ts, key, k);
        }
        if exists k :: 0 <= k < |ts| && (ts[k].0, ts[k].1) == key {
          var k :| 0 <= k < |ts| && (ts[k].0, ts[k].1) == key;
          assert init[k] == ts[k];
        }
      }
    }
  }

  /** The keys of the move dict in insertion order: a key keeps the place of
      the first transition that set it. */
  function MoveOrder<S(==)>(ts: seq<(S, Symbol, S)>): seq<(S, Symbol)> {
    if ts == [] then []
    else
      var o := MoveOrder(ts[..|ts| - 1]);
      var key := (ts[|ts| - 1].0, ts[|ts| - 1].1);
      if key in o then o else o + [key]
  }

  /** Every key of the move dict appears exactly once in the order. */
  lemma {:induction false} MoveOrderSpec<S>(ts: seq<(S, Symbol, S)>)
    ensures NoDuplicates(MoveOrder(ts))
    ensures forall key :: key in MoveOrder(ts) <==> key in Moves(ts)
  {
    if ts != [] {
      var init := ts[..|ts| - 1];
      MoveOrderSpec(init);
      var (f, l, t) := ts[|ts| - 1];
      assert Moves(ts) == Moves(init)[(f, l) := t];
    }
  }

  // ---------------------------------------------------------------------------
  // Breadth-first search

  /** Some letter moves a to b. */
  ghost predicate Edge<S>(move: Move<S>, letters: seq<Symbol>, a: S, b: S) {
    exists ch :: ch in letters && (a, ch) in move && move[(a, ch)] == b
  }

  /** The first n states have all their moves inside xs. */
  ghost predicate ClosedUpTo<S>(move: Move<S>, letters: seq<Symbol>, xs: seq<S>, n: int) {
    forall i, ch :: 0 <= i < n && i < |xs| && ch in letters && (xs[i], ch) in move ==> move[(xs[i], ch)] in xs
  }

  /** Every move from a state of xs by one of the letters stays in xs. */
  ghost predicate Closed<S>(move: Move<S>, letters: seq<Symbol>, xs: seq<S>) {
    ClosedUpTo(move, letters, xs, |xs|)
  }

  /** From position n on, each state is new and is the move of an earlier one. */
  ghost predicate Discovered<S>(move: Move<S>, letters: seq<Symbol>, xs: seq<S>, n: int) {
    forall i :: 0 <= n <= i < |xs| ==> xs[i] !in xs[..i] && exists p :: 0 <= p < i && Edge(move, letters, xs[p], xs[i])
  }

  /** The search list after visiting curr by each of letters in order: a target
      not listed yet is appended. */
  function VisitOrder<S(==)>(move: Move<S>, letters: seq<Symbol>, curr: S, reach: seq<S>): (r: seq<S>)
    ensures |r| >= |reach| && r[..|reach|] == reach
  {
    if letters == [] then reach
    else
      var r := VisitOrder(move, letters[..|letters| - 1], curr, reach);
      var ch := letters[|letters| - 1];
      if (curr, ch) in move && move[(curr, ch)] !in r then
        assert (r + [move[(curr, ch)]])[..|r|] == r;
        r + [move[(curr, ch)]]
      else r
  }

  /** A visit lists every target of curr, and each state it adds is new and one
      move from curr. */
  lemma {:induction false} VisitOrderFacts<S>(move: Move<S>, letters: seq<Symbol>, curr: S, reach: seq<S>)
    ensures forall ch :: ch in letters && (curr, ch) in move ==> move[(curr, ch)] in VisitOrder(move, letters, curr, reach)
    ensures forall i :: |reach| <= i < |VisitOrder(move, letters, curr, reach)| ==>
              Edge(move, letters, curr, VisitOrder(move, letters, curr, reach)[i])
    ensures forall i :: |reach| <= i < |VisitOrder(move, letters, curr, reach)| ==>
              VisitOrder(move, letters, curr, reach)[i] in move.Values &&
              VisitOrder(move, letters, curr, reach)[i] !in VisitOrder(move, letters, curr, reach)[..i]
  {
    if letters != [] {
      var init := letters[..|letters| - 1];
      var ch := letters[|letters| - 1];
      VisitOrderFacts(move, init, curr, reach);
      var r := VisitOrder(move, init, curr, reach);
      assert letters == init + [ch];
      forall i | |reach| <= i < |r|
        ensures Edge(move, letters, curr, r[i])
      {
        var c :| c in init && (curr, c) in move && move[(curr, c)] == r[i];
        assert c in letters;
      }
      if (curr, ch) in move && move[(curr, ch)] !in r {
        var r' := r + [move[(curr, ch)]];
        assert VisitOrder(move, letters, curr, reach) == r';
        forall i | |reach| <= i < |r'|
          ensures Edge(move, letters, curr, r'[i])
          ensures r'[i] in move.Values && r'[i] !in r'[..i]
        {
          if i < |r| {
            assert r'[i] == r[i] && r'[..i] == r[..i];
          }
        }
      }
    }
  }

  /** The search list once every state from position head on has been visited,
      each in turn: remove_unreachable's queue is always the unvisited suffix. */
  function SearchOrder<S(==)>(move: Move<S>, letters: seq<Symbol>, reach: seq<S>, head: nat): (r: seq<S>)
    requires head <= |reach|
    ensures |r| >= |reach| && r[..|reach|] == reach
    decreases Unlisted(move.Values, reach), |reach| - head
  {
    if head == |reach| then reach
    else
      var next := VisitOrder(move, letters, reach[head], reach);
      VisitShrinks(move, letters, reach[head], reach);
      var r := SearchOrder(move, letters, next, head + 1);
      assert r[..|reach|] == r[..|next|][..|reach|];
      r
  }

  /** How many of values are not listed in xs. */
  function Unlisted<S>(values: set<S>, xs: seq<S>): nat {
    |values - set x | x in xs|
  }

  /** A visit either adds nothing or adds a target not listed before, so the
      search ends. */
  lemma VisitShrinks<S>(move: Move<S>, letters: seq<Symbol>, curr: S, reach: seq<S>)
    ensures VisitOrder(move, letters, curr, reach) == reach ||
            Unlisted(move.Values, VisitOrder(move, letters, curr, reach)) < Unlisted(move.Values, reach)
  {
    var next := VisitOrder(move, letters, curr, reach);
    VisitOrderFacts(move, letters, curr, reach);
    if |next| > |reach| {
      assert next[|reach|] !in next[..|reach|];
      SetShrinks(move.Values, (set x | x in reach), (set x | x in next), next[|reach|]);
    } else {
      assert next == next[..|reach|];
    }
  }

  /** Visiting the state at head and moving on leaves the final search list
      unchanged. */
  lemma SearchStep<S>(move: Move<S>, letters: seq<Symbol>, reach: seq<S>, head: nat)
    requires head < |reach|
    ensures SearchOrder(move, letters, reach, head) ==
            SearchOrder(move, letters, VisitOrder(move, letters, reach[head], reach), head + 1)
  {
  }

  /** remove_unreachable's search: the start states, then each newly met target
      in breadth-first order. The result is closed under the moves and every
      added state is new and one move from an earlier state. */
  method Bfs<S(==)>(move: Move<S>, letters: seq<Symbol>, start: seq<S>) returns (reach: seq<S>)
    ensures reach == SearchOrder(move, letters, start, 0)
    ensures |reach| >= |start| && reach[..|start|] == start
    ensures Closed(move, letters, reach)
    ensures Discovered(move, letters, reach, |start|)
  {
    reach := start;
    var queue := start;
    ghost var order := SearchOrder(move, letters, start, 0);
    assert |reach| - |queue| == 0;
    while |queue| > 0
      invariant |queue| <= |reach| && queue == reach[|reach| - |queue|..]
      invariant SearchOrder(move, letters, reach, |reach| - |queue|) == order
      decreases Unlisted(move.Values, reach), |queue|
    {
      ghost var reach0, queue0 := reach, queue;
      var curr := queue[0];
      queue := queue[1..];
      reach, queue := Visit(move, letters, curr, reach, queue);
      BfsLoopStep(move, letters, reach0, queue0, reach, queue);
    }
    SearchDone(move, letters, reach);
    SearchOrderFacts(move, letters, start);
  }

  /** The whole search from the start states: start states first, closed under
      the moves, and every added state new and one move from an earlier one. */
  lemma SearchOrderFacts<S>(move: Move<S>, letters: seq<Symbol>, start: seq<S>)
    ensures |SearchOrder(move, letters, start, 0)| >= |start| && SearchOrder(move, letters, start, 0)[..|start|] == start
    ensures Closed(move, letters, SearchOrder(move, letters, start, 0))
    ensures Discovered(move, letters, SearchOrder(move, letters, start, 0), |start|)
  {
    assert start[..|start|] == start;
    assert Discovered(move, letters, start, |start|);
    SearchFacts(move, letters, start, start, 0);
  }

  /** With nothing left to visit the search list is final. */
  lemma SearchDone<S>(move: Move<S>, letters: seq<Symbol>, reach: seq<S>)
    ensures SearchOrder(move, letters, reach, |reach|) == reach
  {
  }

  /** The search keeps the start states in front, ends closed under the moves,
      and adds only new states one move from an earlier one. */
  lemma {:induction false} SearchFacts<S>(move: Move<S>, letters: seq<Symbol>, start: seq<S>, reach: seq<S>, head: nat)
    requires head <= |reach| && |reach| >= |start| && reach[..|start|] == start
    requires Discovered(move, letters, reach, |start|) && ClosedUpTo(move, letters, reach, head)
    ensures |SearchOrder(move, letters, reach, head)| >= |start| && SearchOrder(move, letters, reach, head)[..|start|] == start
    ensures Closed(move, letters, SearchOrder(move, letters, reach, head))
    ensures Discovered(move, letters, SearchOrder(move, letters, reach, head), |start|)
    decreases Unlisted(move.Values, reach), |reach| - head
  {
    if head < |reach| {
      var next := VisitOrder(move, letters, reach[head], reach);
      BfsStep(move, letters, start, reach, next, head);
      VisitShrinks(move, letters, reach[head], reach);
      SearchStep(move, letters, reach, head);
      SearchFacts(move, letters, start, next, head + 1);
    }
  }

  /** One turn of the search loop: the queue stays the unvisited suffix, the
      final search list stays the same, and either a state was added or the
      queue got shorter. */
  lemma BfsLoopStep<S>(move: Move<S>, letters: seq<Symbol>, reach0: seq<S>, queue0: seq<S>, reach: seq<S>, queue: seq<S>)
    requires 0 < |queue0| <= |reach0| && queue0 == reach0[|reach0| - |queue0|..]
    requires reach == VisitOrder(move, letters, queue0[0], reach0)
    requires queue == queue0[1..] + reach[|reach0|..]
    ensures |queue| <= |reach| && queue == reach[|reach| - |queue|..]
    ensures SearchOrder(move, letters, reach, |reach| - |queue|) == SearchOrder(move, letters, reach0, |reach0| - |queue0|)
    ensures Unlisted(move.Values, reach) < Unlisted(move.Values, reach0) ||
            (Unlisted(move.Values, reach) == Unlisted(move.Values, reach0) && |queue| < |queue0|)
  {
    var head := |reach0| - |queue0|;
    assert queue0[0] == reach0[head];
    QueueStep(reach0, queue0, reach, queue);
    assert |reach| - |queue| == head + 1;
    SearchStep(move, letters, reach0, head);
    VisitShrinks(move, letters, reach0[head], reach0);
  }

  /** The queue stays the unvisited suffix of the search. */
  lemma QueueStep<S>(reach0: seq<S>, queue0: seq<S>, reach: seq<S>, queue: seq<S>)
    requires 0 < |queue0| <= |reach0| && queue0 == reach0[|reach0| - |queue0|..]
    requires |reach| >= |reach0| && reach[..|reach0|] == reach0
    requires queue == queue0[1..] + reach[|reach0|..]
    ensures |queue| <= |reach| && queue == reach[|reach| - |queue|..]
  {
    var head := |reach0| - |queue0|;
    assert |reach| - |queue| == head + 1;
    assert reach[head + 1..] == reach0[head + 1..] + reach[|reach0|..];
  }

  /** The invariants of Bfs survive one visit of the state at head. */
  lemma BfsStep<S>(move: Move<S>, letters: seq<Symbol>, start: seq<S>, reach0: seq<S>, reach: seq<S>, head: nat)
    requires head < |reach0| && |reach0| >= |start| && reach0[..|start|] == start
    requires reach == VisitOrder(move, letters, reach0[head], reach0)
    requires Discovered(move, letters, reach0, |start|) && ClosedUpTo(move, letters, reach0, head)
    ensures |reach| >= |reach0| && reach[..|start|] == start
    ensures Discovered(move, letters, reach, |start|)
    ensures ClosedUpTo(move, letters, reach, head + 1)
  {
    VisitOrderFacts(move, letters, reach0[head], reach0);
    assert reach[..|start|] == reach0[..|start|];
    DiscoveredStep(move, letters, start, reach0, reach, head);
    ClosedStep(move, letters, reach0, reach, head);
  }

  lemma DiscoveredStep<S>(move: Move<S>, letters: seq<Symbol>, start: seq<S>, reach0: seq<S>, reach: seq<S>, head: nat)
    requires head < |reach0| && |reach0| >= |start|
    requires |reach| >= |reach0| && reach[..|reach0|] == reach0
    requires Discovered(move, letters, reach0, |start|)
    requires forall i :: |reach0| <= i < |reach| ==> reach[i] !in reach[..i] && Edge(move, letters, reach0[head], reach[i])
    ensures Discovered(move, letters, reach, |start|)
  {
    forall i | |start| <= i < |reach|
      ensures reach[i] !in reach[..i] && exists p :: 0 <= p < i && Edge(move, letters, reach[p], reach[i])
    {
      if i < |reach0| {
        assert reach[..i] == reach0[..i];
        var p :| 0 <= p < i && Edge(move, letters, reach0[p], reach0[i]);
        assert reach[p] == reach0[p];
      } else {
        assert reach[head] == reach0[head];
      }
    }
  }

  lemma ClosedStep<S>(move: Move<S>, letters: seq<Symbol>, reach0: seq<S>, reach: seq<S>, head: nat)
    requires head < |reach0|
    requires |reach| >= |reach0| && reach[..|reach0|] == reach0
    requires ClosedUpTo(move, letters, reach0, head)
    requires forall ch :: ch in letters && (reach0[head], ch) in move ==> move[(reach0[head], ch)] in reach
    ensures ClosedUpTo(move, letters, reach, head + 1)
  {
    forall i, ch | 0 <= i < head + 1 && i < |reach| && ch in letters && (reach[i], ch) in move
      ensures move[(reach[i], ch)] in reach
    {
      assert reach[i] == reach0[i];
      if i < head {
        assert move[(reach0[i], ch)] in reach0;
      }
    }
  }

  /** The moves of curr by each letter in order: a target not met yet is
      appended to the search and to the queue. */
  method Visit<S(==)>(move: Move<S>, letters: seq<Symbol>, curr: S, reach0: seq<S>, queue0: seq<S>)
    returns (reach: seq<S>, queue: seq<S>)
    ensures reach == VisitOrder(move, letters, curr, reach0)
    ensures queue == queue0 + reach[|reach0|..]
  {
    reach, queue := reach0, queue0;
    for k := 0 to |letters|
      invariant reach == VisitOrder(move, letters[..k], curr, reach0)
      invariant queue == queue0 + reach[|reach0|..]
    {
      var ch := letters[k];
      assert letters[..k + 1][..k] == letters[..k] && letters[..k + 1][k] == ch;
      ghost var before := reach;
      if (curr, ch) in move && move[(curr, ch)] !in reach {
        var next := move[(curr, ch)];
        queue := queue + [next];
        reach := reach + [next];
        assert reach[|reach0|..] == before[|reach0|..] + [next];
      }
    }
    assert letters[..|letters|] == letters;
  }

  lemma SubsetCard<T>(a: set<T>, b: set<T>)
    requires a <= b
    ensures |a| <= |b|
  {
    if a != {} {
      var x :| x in a;
      SubsetCard(a - {x}, b - {x});
    }
  }

  lemma SetShrinks<T>(u: set<T>, a: set<T>, b: set<T>, y: T)
    requires a <= b && y in b && y !in a && y in u
    ensures |u - b| < |u - a|
  {
    assert u - b <= (u - a) - {y};
    SubsetCard(u - b, (u - a) - {y});
  }

  // ---------------------------------------------------------------------------
  // Reachability

  /** The states reachable from start in at most n moves. */
  ghost function Within<S>(move: Move<S>, letters: seq<Symbol>, start: seq<S>, n: nat): set<S> {
    if n == 0 then set x | x in start
    else
      var prev := Within(move, letters, start, n - 1);
      prev + Successors(move, letters, prev)
  }

  /** The states one move from some state of xs. */
  ghost function Successors<S>(move: Move<S>, letters: seq<Symbol>, xs: set<S>): set<S> {
    set a, ch | a in xs && ch in letters && (a, ch) in move :: move[(a, ch)]
  }

  ghost predicate Reachable<S>(move: Move<S>, letters: seq<Symbol>, start: seq<S>, x: S) {
    exists n: nat :: x in Within(move, letters, start, n)
  }

  lemma WithinStep<S>(move: Move<S>, letters: seq<Symbol>, start: seq<S>, n: nat, a: S, ch: Symbol)
    requires a in Within(move, letters, start, n) && ch in letters && (a, ch) in move
    ensures move[(a, ch)] in Within(move, letters, start, n + 1)
  {
    assert move[(a, ch)] in Successors(move, letters, Within(move, letters, start, n));
  }

  lemma {:induction false} WithinGrows<S>(move: Move<S>, letters: seq<Symbol>, start: seq<S>, m: nat, n: nat)
    requires m <= n
    ensures Within(move, letters, start, m) <= Within(move, letters, start, n)
    decreases n
  {
    if m < n {
      WithinGrows(move, letters, start, m, n - 1);
    }
  }

  /** A closed list holding the start states holds every state within n moves. */
  lemma {:induction false} WithinClosed<S>(move: Move<S>, letters: seq<Symbol>, start: seq<S>, xs: seq<S>, n: nat)
    requires forall x :: x in start ==> x in xs
    requires Closed(move, letters, xs)
    ensures forall x :: x in Within(move, letters, start, n) ==> x in xs
  {
    if n > 0 {
      WithinClosed(move, letters, start, xs, n - 1);
      var prev := Within(move, letters, start, n - 1);
      forall y | y in Successors(move, letters, prev)
        ensures y in xs
      {
        var a, ch :| a in prev && ch in letters && (a, ch) in move && y == move[(a, ch)];
        var i :| 0 <= i < |xs| && xs[i] == a;
      }
    }
  }

  /** The state at position i of a search result is within i moves. */
  lemma {:induction false} DiscoveredWithin<S>(move: Move<S>, letters: seq<Symbol>, start: seq<S>, xs: seq<S>, i: nat)
    requires |xs| >= |start| && xs[..|start|] == start
    requires Discovered(move, letters, xs, |start|)
    requires i < |xs|
    ensures xs[i] in Within(move, letters, start, i)
  {
    if i < |start| {
      assert xs[i] == start[i];
      assert xs[i] in Within(move, letters, start, 0);
      WithinGrows(move, letters, start, 0, i);
    } else {
      var p :| 0 <= p < i && Edge(move, letters, xs[p], xs[i]);
      var ch :| ch in letters && (xs[p], ch) in move && move[(xs[p], ch)] == xs[i];
      DiscoveredWithin(move, letters, start, xs, p);
      EdgeWithin(move, letters, start, p, i, xs[p], ch);
    }
  }

  /** A move from a state within p moves lands within any later bound i. */
  lemma EdgeWithin<S>(move: Move<S>, letters: seq<Symbol>, start: seq<S>, p: nat, i: nat, a: S, ch: Symbol)
    requires p < i && a in Within(move, letters, start, p) && ch in letters && (a, ch) in move
    ensures move[(a, ch)] in Within(move, letters, start, i)
  {
    WithinGrows(move, letters, start, p, i - 1);
    WithinStep(move, letters, start, i - 1, a, ch);
  }

  /** The search keeps exactly the states reachable from the start states. */
  lemma BfsExact<S>(move: Move<S>, letters: seq<Symbol>, start: seq<S>, reach: seq<S>)
    requires |reach| >= |start| && reach[..|start|] == start
    requires Closed(move, letters, reach) && Discovered(move, letters, reach, |start|)
    ensures forall x :: x in reach <==> Reachable(move, letters, start, x)
  {
    forall x | x in reach
      ensures Reachable(move, letters, start, x)
    {
      var i :| 0 <= i < |reach| && reach[i] == x;
      DiscoveredWithin(move, letters, start, reach, i);
    }
    forall x | Reachable(move, letters, start, x)
      ensures x in reach
    {
      var n: nat :| x in Within(move, letters, start, n);
      forall y | y in start
        ensures y in reach
      {
        var i :| 0 <= i < |start| && start[i] == y;
        assert reach[i] == y;
      }
      WithinClosed(move, letters, start, reach, n);
    }
  }

  /** Apart from the start states, the search lists no state twice. */
  lemma BfsNoNewDuplicates<S>(move: Move<S>, letters: seq<Symbol>, start: seq<S>, reach: seq<S>)
    requires |reach| >= |start| && reach[..|start|] == start
    requires Discovered(move, letters, reach, |start|)
    requires NoDuplicates(start)
    ensures NoDuplicates(reach)
  {
    forall a, b | 0 <= a < b < |reach|
      ensures reach[a] != reach[b]
    {
      if b >= |start| {
        assert reach[a] in reach[..b];
      } else {
        assert reach[a] == start[a] && reach[b] == start[b];
      }
    }
  }

  /** The entries of xs that are in keep, in order. */
  function Filter<S(==)>(xs: seq<S>, keep: seq<S>): seq<S> {
    if xs == [] then []
    else Filter(xs[..|xs| - 1], keep) + (if xs[|xs| - 1] in keep then [xs[|xs| - 1]] else [])
  }

  /** The filter keeps exactly the entries of xs that are in keep. */
  lemma {:induction false} FilterSpec<S>(xs: seq<S>, keep: seq<S>, x: S)
    ensures x in Filter(xs, keep) <==> x in xs && x in keep
    ensures |Filter(xs, keep)| <= |xs|
  {
    if xs != [] {
      var init := xs[..|xs| - 1];
      FilterSpec(init, keep, x);
      assert xs == init + [xs[|xs| - 1]];
    }
  }

  /** The filter loop of remove_unreachable. */
  method FilterIn<S(==)>(xs: seq<S>, keep: seq<S>) returns (r: seq<S>)
    ensures r == Filter(xs, keep)
  {
    r := [];
    for k := 0 to |xs|
      invariant r == Filter(xs[..k], keep)
    {
      assert xs[..k + 1][..k] == xs[..k];
      if xs[k] in keep {
        r := r + [xs[k]];
      }
    }
    assert xs[..|xs|] == xs;
  }
}
