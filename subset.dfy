/** The subset construction of q2.py: every subset of the NFA's states becomes a
    DFA state, numbered by the bits of its index. There is no epsilon closure;
    the empty-string symbol "$" is read like any other letter. */
module Subset {
  import opened Common

  /** A transition as the NFA lists it: (from, letter, to). */
  type Transition<S> = (S, Symbol, S)

  /** A DFA transition: (subset, letter, destination subset). The source turns the
      destination set into a list in set-iteration order, so it stays a set here. */
  type Row<S> = (seq<S>, Symbol, set<S>)

  // ---------------------------------------------------------------------------
  // The move table

  /** The move table built from ts: each (from, letter) seen maps to the set of
      its destinations. */
  function Moves<S(==)>(ts: seq<Transition<S>>): map<(S, Symbol), set<S>> {
    if ts == [] then map[]
    else
      var m := Moves(ts[..|ts| - 1]);
      var (f, l, t) := ts[|ts| - 1];
      if (f, l) in m then m[(f, l) := m[(f, l)] + {t}] else m[(f, l) := {t}]
  }

  /** move[(f, l)] exists iff some transition leaves f on l, and then holds
      exactly the targets of those transitions. */
  lemma {:induction false} MovesSpec<S>(ts: seq<Transition<S>>)
    ensures forall f, l :: (f, l) in Moves(ts) <==> exists t :: (f, l, t) in ts
    ensures forall f, l, t :: (f, l) in Moves(ts) ==> (t in Moves(ts)[(f, l)] <==> (f, l, t) in ts)
  {
    if ts != [] {
      var init := ts[..|ts| - 1];
      var (f', l', t') := ts[|ts| - 1];
      MovesSpec(init);
      assert ts == init + [(f', l', t')];
      var m := Moves(init);
      forall f, l
        ensures (f, l) in Moves(ts) <==> exists t :: (f, l, t) in ts
        ensures (f, l) in Moves(ts) ==> forall t :: t in Moves(ts)[(f, l)] <==> (f, l, t) in ts
      {
        if (f, l) == (f', l') {
          assert (f, l, t') in ts;
          forall t
            ensures t in Moves(ts)[(f, l)] <==> (f, l, t) in ts
          {
            if (f, l, t) in ts && t != t' {
              assert (f, l, t) in init;
            }
          }
        } else {
          assert Moves(ts) == m[(f', l') := Moves(ts)[(f', l')]];
          if exists t :: (f, l, t) in ts {
            var t :| (f, l, t) in ts;
            assert (f, l, t) in init;
          }
          forall t | (f, l, t) in ts
            ensures (f, l, t) in init
          {
          }
        }
      }
    }
  }

  // ---------------------------------------------------------------------------
  // Subsets by index

  function Pow2(n: nat): (p: nat)
    ensures p >= 1
  {
    if n == 0 then 1 else 2 * Pow2(n - 1)
  }

  /** Bit pos of idx, which is what `(idx >> pos) & 1` tests. */
  predicate Bit(idx: nat, pos: nat) {
    if pos == 0 then idx % 2 == 1 else Bit(idx / 2, pos - 1)
  }

  /** The members ss[pos], pos < k, whose bit is set in idx, in the order of ss. */
  function SubsetAt<S>(ss: seq<S>, idx: nat, k: nat): (r: seq<S>)
    requires k <= |ss|
    ensures |r| <= k
  {
    if k == 0 then [] else SubsetAt(ss, idx, k - 1) + (if Bit(idx, k - 1) then [ss[k - 1]] else [])
  }

  /** The DFA states in index order. */
  function Powerset<S>(ss: seq<S>): (r: seq<seq<S>>)
    ensures |r| == Pow2(|ss|)
  {
    seq(Pow2(|ss|), idx requires 0 <= idx => SubsetAt(ss, idx, |ss|))
  }

  /** Subset idx holds x exactly when x is some ss[pos] whose bit is set. */
  lemma {:induction false} SubsetMembers<S>(ss: seq<S>, idx: nat, k: nat)
    requires k <= |ss|
    ensures forall x :: x in SubsetAt(ss, idx, k) <==> exists pos :: 0 <= pos < k && Bit(idx, pos) && ss[pos] == x
  {
    if k > 0 {
      SubsetMembers(ss, idx, k - 1);
    }
  }

  lemma {:induction false} ZeroHasNoBits(pos: nat)
    ensures !Bit(0, pos)
  {
    if pos > 0 {
      ZeroHasNoBits(pos - 1);
    }
  }

  lemma {:induction false} ZeroSubset<S>(ss: seq<S>, k: nat)
    requires k <= |ss|
    ensures SubsetAt(ss, 0, k) == []
  {
    if k > 0 {
      ZeroSubset(ss, k - 1);
      ZeroHasNoBits(k - 1);
    }
  }

  /** Index 0 is the empty subset: the dead state comes first. */
  lemma EmptySubsetFirst<S>(ss: seq<S>)
    ensures Powerset(ss)[0] == []
  {
    ZeroSubset(ss, |ss|);
  }

  /** Two different indices below 2^n differ in one of their n lowest bits. */
  lemma {:induction false} BitsDiffer(i: nat, j: nat, n: nat)
    requires i < Pow2(n) && j < Pow2(n) && i != j
    ensures exists pos :: 0 <= pos < n && Bit(i, pos) != Bit(j, pos)
  {
    if i % 2 != j % 2 {
      assert n > 0;
      assert Bit(i, 0) != Bit(j, 0);
    } else {
      assert n > 0;
      BitsDiffer(i / 2, j / 2, n - 1);
      var pos :| 0 <= pos < n - 1 && Bit(i / 2, pos) != Bit(j / 2, pos);
      assert Bit(i, pos + 1) != Bit(j, pos + 1);
    }
  }

  /** With distinct NFA states, the 2^n DFA states are pairwise different. */
  lemma SubsetsDistinct<S>(ss: seq<S>)
    requires NoDuplicates(ss)
    ensures NoDuplicates(Powerset(ss))
  {
    var ps := Powerset(ss);
    forall i, j | 0 <= i < j < |ps|
      ensures ps[i] != ps[j]
    {
      BitsDiffer(i, j, |ss|);
      var pos :| 0 <= pos < |ss| && Bit(i, pos) != Bit(j, pos);
      SubsetMembers(ss, i, |ss|);
      SubsetMembers(ss, j, |ss|);
      if Bit(i, pos) {
        assert ss[pos] in ps[i];
        assert ss[pos] !in ps[j];
      } else {
        assert ss[pos] in ps[j];
        assert ss[pos] !in ps[i];
      }
    }
  }

  // ---------------------------------------------------------------------------
  // Destinations, rows and final subsets

  /** The union of move[(s, ch)] over the members s of from; missing entries add nothing. */
  function Dest<S(==)>(move: map<(S, Symbol), set<S>>, from: seq<S>, ch: Symbol): set<S> {
    if from == [] then {}
    else
      var s := from[|from| - 1];
      Dest(move, from[..|from| - 1], ch) + (if (s, ch) in move then move[(s, ch)] else {})
  }

  /** x is a destination iff some member of from moves to x on ch: only direct
      edges labelled ch count, "$" included, and no closure is taken. */
  lemma {:induction false} DestSpec<S>(ts: seq<Transition<S>>, from: seq<S>, ch: Symbol)
    ensures forall x :: x in Dest(Moves(ts), from, ch) <==> exists s :: s in from && (s, ch, x) in ts
  {
    if from != [] {
      var init := from[..|from| - 1];
      var s := from[|from| - 1];
      var m := Moves(ts);
      DestSpec(ts, init, ch);
      MovesSpec(ts);
      assert from == init + [s];
      var here := if (s, ch) in m then m[(s, ch)] else {};
      assert Dest(m, from, ch) == Dest(m, init, ch) + here;
      forall x
        ensures x in Dest(m, from, ch) <==> exists s' :: s' in from && (s', ch, x) in ts
      {
        if x in here {
          assert (s, ch, x) in ts;
        } else if x in Dest(m, init, ch) {
          var s' :| s' in init && (s', ch, x) in ts;
          assert s' in from;
        } else {
          forall s' | s' in from
            ensures (s', ch, x) !in ts
          {
            if s' != s {
              assert s' in init;
            }
          }
        }
      }
    }
  }

  /** The rows of one subset, one per letter, in letter order. */
  function RowsFor<S(==)>(move: map<(S, Symbol), set<S>>, from: seq<S>, letters: seq<Symbol>): (r: seq<Row<S>>)
    ensures |r| == |letters|
  {
    if letters == [] then []
    else RowsFor(move, from, letters[..|letters| - 1]) + [(from, letters[|letters| - 1], Dest(move, from, letters[|letters| - 1]))]
  }

  /** All rows, subset-major and letter-minor. */
  function Rows<S(==)>(move: map<(S, Symbol), set<S>>, states: seq<seq<S>>, letters: seq<Symbol>): seq<Row<S>> {
    if states == [] then []
    else Rows(move, states[..|states| - 1], letters) + RowsFor(move, states[|states| - 1], letters)
  }

  lemma {:induction false} RowsForIndex<S>(move: map<(S, Symbol), set<S>>, from: seq<S>, letters: seq<Symbol>)
    ensures forall k :: 0 <= k < |letters| ==> RowsFor(move, from, letters)[k] == (from, letters[k], Dest(move, from, letters[k]))
  {
    if letters != [] {
      RowsForIndex(move, from, letters[..|letters| - 1]);
    }
  }

  lemma IndexBounds(i: nat, k: nat, n: nat, l: nat)
    requires i < n && k < l
    ensures i * l + k < n * l
  {
    assert (i + 1) * l <= n * l;
  }

  /** Exactly one row per (subset, letter). */
  lemma {:induction false} RowsLength<S>(move: map<(S, Symbol), set<S>>, states: seq<seq<S>>, letters: seq<Symbol>)
    ensures |Rows(move, states, letters)| == |states| * |letters|
  {
    if states != [] {
      var n := |states| - 1;
      RowsLength(move, states[..n], letters);
      IndexBoundsLength(n, |letters|);
    }
  }

  lemma IndexBoundsLength(n: nat, l: nat)
    ensures (n + 1) * l == n * l + l
  {
  }

  /** Row i * |letters| + k is subset i read on letter k: subset-major,
      letter-minor order. */
  lemma {:induction false} RowAt<S>(move: map<(S, Symbol), set<S>>, states: seq<seq<S>>, letters: seq<Symbol>, i: nat, k: nat)
    requires i < |states| && k < |letters|
    ensures i * |letters| + k < |Rows(move, states, letters)|
    ensures Rows(move, states, letters)[i * |letters| + k] == (states[i], letters[k], Dest(move, states[i], letters[k]))
  {
    var n := |states| - 1;
    var l := |letters|;
    var init := states[..n];
    RowsLength(move, init, letters);
    RowsLength(move, states, letters);
    assert Rows(move, states, letters) == Rows(move, init, letters) + RowsFor(move, states[n], letters);
    if i < n {
      RowAt(move, init, letters, i, k);
      IndexBounds(i, k, n, l);
      assert states[i] == init[i];
    } else {
      RowsForIndex(move, states[n], letters);
      assert i * l + k == n * l + k;
    }
  }

  /** Whether from contains one of the final states. */
  predicate HasFinal<S(==)>(from: seq<S>, final: seq<S>) {
    exists s :: s in from && s in final
  }

  /** The subsets holding some final NFA state, in state order. */
  function FinalSubsets<S(==)>(states: seq<seq<S>>, final: seq<S>): seq<seq<S>> {
    if states == [] then []
    else
      var last := states[|states| - 1];
      FinalSubsets(states[..|states| - 1], final) + (if HasFinal(last, final) then [last] else [])
  }

  /** A subset is final iff it holds a final NFA state, and none is listed twice
      when the subsets are distinct. */
  lemma {:induction false} FinalSubsetsSpec<S>(states: seq<seq<S>>, final: seq<S>)
    ensures forall x :: x in FinalSubsets(states, final) <==> x in states && HasFinal(x, final)
    ensures NoDuplicates(states) ==> NoDuplicates(FinalSubsets(states, final))
  {
    if states != [] {
      var init := states[..|states| - 1];
      var last := states[|states| - 1];
      FinalSubsetsSpec(init, final);
      assert states == init + [last];
      if NoDuplicates(states) {
        assert last !in init;
        assert NoDuplicates(init);
      }
    }
  }

  // ---------------------------------------------------------------------------
  // The automata objects

  class Nfa<S(==)> {
    var states: seq<S>
    var letters: seq<Symbol>
    var transitions: seq<Transition<S>>
    var start: seq<S>
    var final: seq<S>
    var move: map<(S, Symbol), set<S>>

    /** The move table is the one the transition list describes. */
    ghost predicate Valid()
      reads this
    {
      move == Moves(transitions)
    }

    constructor (states: seq<S>, letters: seq<Symbol>, transitions: seq<Transition<S>>, start: seq<S>, final: seq<S>)
      ensures Valid()
      ensures this.states == states && this.letters == letters && this.transitions == transitions
      ensures this.start == start && this.final == final
      ensures move == Moves(transitions)
    {
      this.states := states;
      this.letters := letters;
      this.transitions := transitions;
      this.start := start;
      this.final := final;
      new;
      MakeMovements();
    }

    /** Fills the move table from the transition list. */
    method MakeMovements()
      modifies this
      ensures Valid()
      ensures move == Moves(transitions)
      ensures states == old(states) && letters == old(letters) && transitions == old(transitions)
      ensures start == old(start) && final == old(final)
    {
      move := map[];
      for i := 0 to |transitions|
        invariant states == old(states) && letters == old(letters) && transitions == old(transitions)
        invariant start == old(start) && final == old(final)
        invariant move == Moves(transitions[..i])
      {
        assert transitions[..i + 1][..i] == transitions[..i];
        var (f, l, t) := transitions[i];
        if (f, l) in move {
          move := move[(f, l) := move[(f, l)] + {t}];
        } else {
          move := move[(f, l) := {t}];
        }
      }
      assert transitions[..|transitions|] == transitions;
    }
  }

  class Dfa<S(==)> {
    var states: seq<seq<S>>
    var letters: seq<Symbol>
    var transitions: seq<Row<S>>
    var start: seq<seq<S>>
    var final: seq<seq<S>>

    constructor ()
      ensures states == [] && letters == [] && transitions == [] && start == [] && final == []
    {
      states := [];
      letters := [];
      transitions := [];
      start := [];
      final := [];
    }

    /** The 2^n subsets in index order, the NFA's letters, and a single start
        state: the NFA's list of start states itself. */
    method InitializeFromNfa(nfa: Nfa<S>)
      modifies this
      ensures states == Powerset(nfa.states)
      ensures letters == nfa.letters && start == [nfa.start]
      ensures transitions == old(transitions) && final == old(final)
    {
      var ss := nfa.states;
      var all: seq<seq<S>> := [];
      for idx := 0 to Pow2(|ss|)
        invariant transitions == old(transitions) && final == old(final)
        invariant all == Powerset(ss)[..idx]
      {
        var current := SubsetOf(ss, idx);
        all := all + [current];
      }
      assert all == Powerset(ss);
      states := all;
      letters := nfa.letters;
      start := [nfa.start];
    }
  }

  /** The inner loop of the initialisation: the members whose bit is set in idx. */
  method SubsetOf<S>(ss: seq<S>, idx: nat) returns (current: seq<S>)
    ensures current == SubsetAt(ss, idx, |ss|)
  {
    current := [];
    for pos := 0 to |ss|
      invariant current == SubsetAt(ss, idx, pos)
    {
      if Bit(idx, pos) {
        current := current + [ss[pos]];
      }
    }
  }

  /** The running union of the move-sets of from's members on ch. */
  method Destination<S(==)>(move: map<(S, Symbol), set<S>>, from: seq<S>, ch: Symbol) returns (to: set<S>)
    ensures to == Dest(move, from, ch)
  {
    to := {};
    for j := 0 to |from|
      invariant to == Dest(move, from[..j], ch)
    {
      assert from[..j + 1][..j] == from[..j];
      if (from[j], ch) in move {
        to := to + move[(from[j], ch)];
      }
    }
    assert from[..|from|] == from;
  }

  /** Whether from holds a final state, scanning until the first one. */
  method ContainsFinal<S(==)>(from: seq<S>, final: seq<S>) returns (found: bool)
    ensures found <==> HasFinal(from, final)
  {
    found := false;
    var j := 0;
    while j < |from| && !found
      invariant 0 <= j <= |from|
      invariant found <==> exists s :: s in from[..j] && s in final
    {
      assert from[..j + 1] == from[..j] + [from[j]];
      found := from[j] in final;
      j := j + 1;
    }
    assert !found ==> from[..j] == from;
  }

  /** The rows of one subset, one per letter. */
  method RowsOf<S(==)>(move: map<(S, Symbol), set<S>>, from: seq<S>, letters: seq<Symbol>) returns (rows: seq<Row<S>>)
    ensures rows == RowsFor(move, from, letters)
  {
    rows := [];
    for k := 0 to |letters|
      invariant rows == RowsFor(move, from, letters[..k])
    {
      assert letters[..k + 1][..k] == letters[..k];
      var to := Destination(move, from, letters[k]);
      rows := rows + [(from, letters[k], to)];
    }
    assert letters[..|letters|] == letters;
  }

  /** The transition list: subset by subset, letter by letter. */
  method TransitionRows<S(==)>(move: map<(S, Symbol), set<S>>, subsets: seq<seq<S>>, letters: seq<Symbol>) returns (rows: seq<Row<S>>)
    ensures rows == Rows(move, subsets, letters)
  {
    rows := [];
    for i := 0 to |subsets|
      invariant rows == Rows(move, subsets[..i], letters)
    {
      assert subsets[..i + 1][..i] == subsets[..i];
      var more := RowsOf(move, subsets[i], letters);
      rows := rows + more;
    }
    assert subsets[..|subsets|] == subsets;
  }

  /** The final-state list: each subset holding a final state, once, in order. */
  method FinalStates<S(==)>(subsets: seq<seq<S>>, final: seq<S>) returns (finals: seq<seq<S>>)
    ensures finals == FinalSubsets(subsets, final)
  {
    finals := [];
    for i := 0 to |subsets|
      invariant finals == FinalSubsets(subsets[..i], final)
    {
      assert subsets[..i + 1][..i] == subsets[..i];
      var found := ContainsFinal(subsets[i], final);
      if found {
        finals := finals + [subsets[i]];
      }
    }
    assert subsets[..|subsets|] == subsets;
  }

  /** The construction of q2.py: states and start by initialisation, then one
      row per (subset, letter), then the subsets holding a final state. */
  method NfaToDfa<S(==)>(nfa: Nfa<S>) returns (dfa: Dfa<S>)
    requires nfa.Valid()
    ensures fresh(dfa)
    ensures dfa.states == Powerset(nfa.states)
    ensures dfa.letters == nfa.letters && dfa.start == [nfa.start]
    ensures dfa.transitions == Rows(nfa.move, dfa.states, dfa.letters)
    ensures dfa.transitions == Rows(Moves(nfa.transitions), dfa.states, dfa.letters)
    ensures dfa.final == FinalSubsets(dfa.states, nfa.final)
  {
    dfa := new Dfa();
    dfa.InitializeFromNfa(nfa);
    var rows := TransitionRows(nfa.move, dfa.states, dfa.letters);
    dfa.transitions := rows;
    var finals := FinalStates(dfa.states, nfa.final);
    dfa.final := finals;
  }
}
