/** The DFA of q4.py and its minimisation: drop the unreachable states, mark
    the pairs of states with different languages, join the unmarked pairs in a
    disjoint-set structure, and rebuild start states, final states and
    transitions over the resulting classes. */
module Minimize {
  import opened Common
  import opened Reach
  import opened Marking
  import opened DisjointSet

  /** The minimised automaton: its states are classes of original states. */
  datatype MinDfa<S> = MinDfa(states: seq<seq<S>>, letters: seq<Symbol>,
                              transitions: seq<(seq<S>, Symbol, seq<S>)>,
                              start: seq<seq<S>>, final: seq<seq<S>>)

  // ---------------------------------------------------------------------------
  // Joining the unmarked pairs

  /** Singletons put nothing together but a state with itself. */
  lemma SingletonsEquivalent<S>(sets: seq<seq<S>>, letters: seq<Symbol>, move: Move<S>, final: seq<S>)
    requires forall i :: 0 <= i < |sets| ==> |sets[i]| == 1
    ensures forall x, y :: SameSet(sets, x, y) ==> Equivalent(move, letters, final, x, y)
  {
    forall x, y | SameSet(sets, x, y)
      ensures Equivalent(move, letters, final, x, y)
    {
      var k :| 0 <= k < |sets| && x in sets[k] && y in sets[k];
      assert sets[k] == [sets[k][0]];
      EquivalentTrans(move, letters, final, x, x, x);
    }
  }

  /** Joining two equivalent states keeps every set made of equivalent states. */
  lemma JoinEquivalent<S>(sets: seq<seq<S>>, x: S, y: S, letters: seq<Symbol>, move: Move<S>, final: seq<S>)
    requires Partition(sets) && x in Elements(sets) && y in Elements(sets)
    requires Equivalent(move, letters, final, x, y)
    requires forall a, b :: SameSet(sets, a, b) ==> Equivalent(move, letters, final, a, b)
    ensures JoinSets(sets, x, y).Some?
    ensures forall a, b :: SameSet(JoinSets(sets, x, y).value, a, b) ==> Equivalent(move, letters, final, a, b)
  {
    var r := JoinSets(sets, x, y).value;
    forall a, b | SameSet(r, a, b)
      ensures Equivalent(move, letters, final, a, b)
    {
      JoinSetsTogether(sets, x, y, a, b);
      EquivalentTrans(move, letters, final, a, x, y);
      EquivalentTrans(move, letters, final, a, y, x);
      EquivalentTrans(move, letters, final, x, a, b);
      EquivalentTrans(move, letters, final, y, a, b);
      EquivalentTrans(move, letters, final, a, x, b);
      EquivalentTrans(move, letters, final, a, y, b);
      EquivalentTrans(move, letters, final, x, y, b);
      EquivalentTrans(move, letters, final, y, x, b);
    }
  }

  /** One join of an equivalent pair keeps the sets a partition of the states
      into equivalent states, puts the pair together, and separates nothing. */
  lemma JoinStep<S>(sets: seq<seq<S>>, states: seq<S>, letters: seq<Symbol>, move: Move<S>, final: seq<S>, x: S, y: S)
    requires Partition(sets) && Elements(sets) == set s | s in states
    requires forall a, b :: SameSet(sets, a, b) ==> Equivalent(move, letters, final, a, b)
    requires x in states && y in states && Equivalent(move, letters, final, x, y)
    ensures JoinSets(sets, x, y).Some?
    ensures var r := JoinSets(sets, x, y).value;
      && Partition(r) && Elements(r) == (set s | s in states)
      && (forall a, b :: SameSet(r, a, b) ==> Equivalent(move, letters, final, a, b))
      && SameSet(r, x, y)
      && (forall a, b :: SameSet(sets, a, b) ==> SameSet(r, a, b))
  {
    JoinEquivalent(sets, x, y, letters, move, final);
    JoinSetsFacts(sets, x, y);
    forall a, b | SameSet(sets, a, b)
      ensures SameSet(JoinSets(sets, x, y).value, a, b)
    {
      JoinSetsTogether(sets, x, y, a, b);
    }
  }

  /** Sets of equivalent states that put every unmarked pair together are
      exactly the language classes. */
  lemma MergeComplete<S>(classes: seq<seq<S>>, states: seq<S>, marks: seq<(S, S)>, letters: seq<Symbol>, move: Move<S>, final: seq<S>)
    requires forall p :: p in Combos(states) ==> (p in marks <==> !Equivalent(move, letters, final, p.0, p.1))
    requires Elements(classes) == set s | s in states
    requires forall a, b :: SameSet(classes, a, b) ==> Equivalent(move, letters, final, a, b)
    requires forall p :: p in Combos(states) && p !in marks ==> SameSet(classes, p.0, p.1)
    ensures forall x, y :: x in states && y in states ==>
              (SameSet(classes, x, y) <==> Equivalent(move, letters, final, x, y))
  {
    forall x, y | x in states && y in states && Equivalent(move, letters, final, x, y)
      ensures SameSet(classes, x, y)
    {
      CombosCover(states, x, y);
      CombosCover(states, y, x);
      if x == y {
        assert x in Elements(classes);
      } else if (x, y) !in Combos(states) {
        EquivalentTrans(move, letters, final, x, y, x);
        assert SameSet(classes, y, x);
      }
    }
  }

  /** What the merge loop keeps after the first k pairs: a partition of the
      states into equivalent states that puts every unmarked pair so far
      together. */
  ghost predicate Merging<S(!new)>(sets: seq<seq<S>>, states: seq<S>, combos: seq<(S, S)>, marks: seq<(S, S)>, k: nat,
                             letters: seq<Symbol>, move: Move<S>, final: seq<S>)
  {
    && k <= |combos|
    && Partition(sets) && Elements(sets) == (set x | x in states)
    && (forall x, y :: SameSet(sets, x, y) ==> Equivalent(move, letters, final, x, y))
    && (forall i :: 0 <= i < k && combos[i] !in marks ==> SameSet(sets, combos[i].0, combos[i].1))
  }

  /** Joining the k-th pair when it is unmarked, and nothing otherwise, carries
      the merge loop's facts to k + 1. */
  lemma MergeStep<S(!new)>(sets: seq<seq<S>>, r: seq<seq<S>>, states: seq<S>, marks: seq<(S, S)>, k: nat,
                     letters: seq<Symbol>, move: Move<S>, final: seq<S>)
    requires forall p :: p in Combos(states) ==> (p in marks <==> !Equivalent(move, letters, final, p.0, p.1))
    requires k < |Combos(states)| && Merging(sets, states, Combos(states), marks, k, letters, move, final)
    requires Combos(states)[k] in marks ==> r == sets
    requires Combos(states)[k] !in marks ==> JoinSets(sets, Combos(states)[k].0, Combos(states)[k].1) == Some(r)
    ensures Merging(r, states, Combos(states), marks, k + 1, letters, move, final)
  {
    var combos := Combos(states);
    var p := combos[k];
    if p !in marks {
      CombosCover(states, p.0, p.1);
      JoinStep(sets, states, letters, move, final, p.0, p.1);
    }
  }

  /** Step 3 of minimize: one singleton per state, then a join for every
      unmarked pair. Given marks that are exactly the pairs with different
      languages, the classes are exactly the language classes. */
  method Merge<S(==,!new)>(states: seq<S>, marks: seq<(S, S)>, ghost letters: seq<Symbol>, ghost move: Move<S>, ghost final: seq<S>)
    returns (classes: seq<seq<S>>)
    requires forall p :: p in Combos(states) ==> (p in marks <==> !Equivalent(move, letters, final, p.0, p.1))
    ensures Partition(classes) && Elements(classes) == set x | x in states
    ensures forall x, y :: x in states && y in states ==>
              (SameSet(classes, x, y) <==> Equivalent(move, letters, final, x, y))
  {
    var dsu := new Dsu(states);
    SingletonsEquivalent(dsu.sets, letters, move, final);
    var combos := Combos(states);
    for k := 0 to |combos|
      invariant Merging(dsu.sets, states, combos, marks, k, letters, move, final)
    {
      var p := combos[k];
      ghost var before := dsu.sets;
      if p !in marks {
        CombosCover(states, p.0, p.1);
        JoinStep(dsu.sets, states, letters, move, final, p.0, p.1);
        var ok := dsu.Join(p.0, p.1);
      }
      MergeStep(before, dsu.sets, states, marks, k, letters, move, final);
    }
    classes := dsu.Get();
    MergeDone(classes, states, marks, letters, move, final);
  }

  lemma MergeDone<S(!new)>(classes: seq<seq<S>>, states: seq<S>, marks: seq<(S, S)>, letters: seq<Symbol>, move: Move<S>, final: seq<S>)
    requires forall p :: p in Combos(states) ==> (p in marks <==> !Equivalent(move, letters, final, p.0, p.1))
    requires Merging(classes, states, Combos(states), marks, |Combos(states)|, letters, move, final)
    ensures forall x, y :: x in states && y in states ==>
              (SameSet(classes, x, y) <==> Equivalent(move, letters, final, x, y))
  {
    var combos := Combos(states);
    forall p | p in combos && p !in marks
      ensures SameSet(classes, p.0, p.1)
    {
      var i :| 0 <= i < |combos| && combos[i] == p;
    }
    MergeComplete(classes, states, marks, letters, move, final);
  }

  // ---------------------------------------------------------------------------
  // Start and final classes

  /** Some state of the class is listed in xs. */
  predicate Meets<S(==)>(c: seq<S>, xs: seq<S>) {
    exists x :: x in c && x in xs
  }

  /** The classes, in order, that hold a state listed in xs. */
  function ClassesMeeting<S(==)>(classes: seq<seq<S>>, xs: seq<S>): seq<seq<S>> {
    if classes == [] then []
    else
      var c := classes[|classes| - 1];
      ClassesMeeting(classes[..|classes| - 1], xs) + (if Meets(c, xs) then [c] else [])
  }

  /** A class is kept iff it holds a listed state; order is kept. */
  lemma {:induction false} ClassesMeetingSpec<S>(classes: seq<seq<S>>, xs: seq<S>, c: seq<S>)
    ensures c in ClassesMeeting(classes, xs) <==> c in classes && Meets(c, xs)
    ensures |ClassesMeeting(classes, xs)| <= |classes|
  {
    if classes != [] {
      var init := classes[..|classes| - 1];
      ClassesMeetingSpec(init, xs, c);
      assert classes == init + [classes[|classes| - 1]];
    }
  }

  /** Step 4 for the start and the final states: a class is kept as soon as one
      of its states is listed. */
  method SelectClasses<S(==)>(classes: seq<seq<S>>, xs: seq<S>) returns (r: seq<seq<S>>)
    ensures r == ClassesMeeting(classes, xs)
  {
    r := [];
    for k := 0 to |classes|
      invariant r == ClassesMeeting(classes[..k], xs)
    {
      assert classes[..k + 1][..k] == classes[..k];
      var c := classes[k];
      for i := 0 to |c|
        invariant forall j :: 0 <= j < i ==> c[j] !in xs
      {
        if c[i] in xs {
          r := r + [c];
          break;
        }
      }
    }
    assert classes[..|classes|] == classes;
  }

  /** In a class of equivalent states either every state is final or none is,
      so a class meets the final states iff all its states are final. */
  lemma FinalClassesUniform<S>(classes: seq<seq<S>>, states: seq<S>, letters: seq<Symbol>, move: Move<S>, final: seq<S>, c: seq<S>)
    requires Partition(classes) && Elements(classes) == set x | x in states
    requires forall x, y :: x in states && y in states ==>
               (SameSet(classes, x, y) <==> Equivalent(move, letters, final, x, y))
    requires c in classes
    ensures c in ClassesMeeting(classes, final) <==> forall x :: x in c ==> x in final
    ensures c !in ClassesMeeting(classes, final) <==> forall x :: x in c ==> x !in final
  {
    ClassesMeetingSpec(classes, final, c);
    var k :| 0 <= k < |classes| && classes[k] == c;
    if Meets(c, final) {
      var y :| y in c && y in final;
      forall x | x in c
        ensures x in final
      {
        assert x in Elements(classes) && y in Elements(classes);
        assert SameSet(classes, x, y);
        assert Word(letters, []);
        assert Accepts(move, final, y, []);
      }
    }
    assert c != [] && c[0] in c;
  }

  // ---------------------------------------------------------------------------
  // Transitions between classes

  /** The class holding x (dsu.find). */
  function ClassOf<S(==)>(classes: seq<seq<S>>, x: S): (c: seq<S>)
    requires Listed(classes, x)
    ensures x in c && c in classes
  {
    classes[IndexOf(classes, x).value]
  }

  /** Some rebuilt transition leaves a class with the items of c on ch; the
      classes are compared as sorted lists, that is, as multisets. */
  predicate Listing<S(==)>(t: seq<(seq<S>, Symbol, seq<S>)>, c: seq<S>, ch: Symbol) {
    exists i :: 0 <= i < |t| && multiset(t[i].0) == multiset(c) && t[i].1 == ch
  }

  /** Step 4 for the transitions: the moves in dict order, skipping those that
      leave or enter a dropped state and those whose class already has a
      transition on the letter. */
  function Rebuild<S(==)>(order: seq<(S, Symbol)>, move: Move<S>, states: seq<S>, classes: seq<seq<S>>)
    : seq<(seq<S>, Symbol, seq<S>)>
    requires forall k :: 0 <= k < |order| ==> order[k] in move
    requires forall x :: x in states ==> Listed(classes, x)
  {
    if order == [] then []
    else
      var t := Rebuild(order[..|order| - 1], move, states, classes);
      var key := order[|order| - 1];
      var next := move[key];
      if key.0 !in states || next !in states then t
      else if Listing(t, ClassOf(classes, key.0), key.1) then t
      else t + [(ClassOf(classes, key.0), key.1, ClassOf(classes, next))]
  }

  /** The move of a kept state on a letter, lifted to the classes. */
  ghost predicate Lifted<S>(order: seq<(S, Symbol)>, move: Move<S>, states: seq<S>, classes: seq<seq<S>>,
                            e: (seq<S>, Symbol, seq<S>))
    requires forall k :: 0 <= k < |order| ==> order[k] in move
    requires forall x :: x in states ==> Listed(classes, x)
  {
    exists k :: 0 <= k < |order| && order[k].0 in states && move[order[k]] in states &&
      e == (ClassOf(classes, order[k].0), order[k].1, ClassOf(classes, move[order[k]]))
  }

  /** No class has two transitions on one letter. */
  lemma {:induction false} RebuildUnique<S>(order: seq<(S, Symbol)>, move: Move<S>, states: seq<S>, classes: seq<seq<S>>,
                                           i: nat, j: nat)
    requires forall k :: 0 <= k < |order| ==> order[k] in move
    requires forall x :: x in states ==> Listed(classes, x)
    requires i < j < |Rebuild(order, move, states, classes)|
    ensures multiset(Rebuild(order, move, states, classes)[i].0) != multiset(Rebuild(order, move, states, classes)[j].0)
            || Rebuild(order, move, states, classes)[i].1 != Rebuild(order, move, states, classes)[j].1
  {
    var init := order[..|order| - 1];
    var t0 := Rebuild(init, move, states, classes);
    var t := Rebuild(order, move, states, classes);
    if j < |t0| {
      RebuildUnique(init, move, states, classes, i, j);
    } else {
      assert t[i] == t0[i];
      assert !Listing(t0, t[j].0, t[j].1);
    }
  }

  /** Every transition is the move of a kept state lifted to the classes. */
  lemma {:induction false} RebuildLifted<S>(order: seq<(S, Symbol)>, move: Move<S>, states: seq<S>, classes: seq<seq<S>>)
    requires forall k :: 0 <= k < |order| ==> order[k] in move
    requires forall x :: x in states ==> Listed(classes, x)
    ensures forall i :: 0 <= i < |Rebuild(order, move, states, classes)| ==>
              Lifted(order, move, states, classes, Rebuild(order, move, states, classes)[i])
  {
    if order != [] {
      var init := order[..|order| - 1];
      RebuildLifted(init, move, states, classes);
      var t0 := Rebuild(init, move, states, classes);
      var t := Rebuild(order, move, states, classes);
      forall i | 0 <= i < |t|
        ensures Lifted(order, move, states, classes, t[i])
      {
        if i < |t0| {
          assert t[i] == t0[i];
          assert Lifted(init, move, states, classes, t0[i]);
          var k :| 0 <= k < |init| && init[k].0 in states && move[init[k]] in states &&
            t0[i] == (ClassOf(classes, init[k].0), init[k].1, ClassOf(classes, move[init[k]]));
          assert order[k] == init[k];
        } else {
          assert order[|order| - 1].0 in states;
        }
      }
    }
  }

  /** Every move of a kept state into a kept state has a transition from its
      class on its letter. */
  lemma {:induction false} RebuildCovers<S>(order: seq<(S, Symbol)>, move: Move<S>, states: seq<S>, classes: seq<seq<S>>)
    requires forall k :: 0 <= k < |order| ==> order[k] in move
    requires forall x :: x in states ==> Listed(classes, x)
    ensures forall k :: 0 <= k < |order| && order[k].0 in states && move[order[k]] in states ==>
              Listing(Rebuild(order, move, states, classes), ClassOf(classes, order[k].0), order[k].1)
  {
    if order != [] {
      var init := order[..|order| - 1];
      RebuildCovers(init, move, states, classes);
      var t0 := Rebuild(init, move, states, classes);
      var t := Rebuild(order, move, states, classes);
      forall k | 0 <= k < |order| && order[k].0 in states && move[order[k]] in states
        ensures Listing(t, ClassOf(classes, order[k].0), order[k].1)
      {
        if k < |init| {
          assert order[k] == init[k];
          var i :| 0 <= i < |t0| && multiset(t0[i].0) == multiset(ClassOf(classes, init[k].0)) && t0[i].1 == init[k].1;
          assert t[i] == t0[i];
        } else if t != t0 {
          assert t[|t0|].0 == ClassOf(classes, order[k].0);
        }
      }
    }
  }

  /** Equivalent states move on each letter to equivalent states, so the
      classes of the successors of one class agree (Myhill-Nerode). */
  lemma ClassMovesAgree<S>(classes: seq<seq<S>>, states: seq<S>, letters: seq<Symbol>, move: Move<S>, final: seq<S>,
                           x: S, y: S, ch: Symbol)
    requires forall a, b :: a in states && b in states ==>
               (SameSet(classes, a, b) <==> Equivalent(move, letters, final, a, b))
    requires Closed(move, letters, states)
    requires x in states && y in states && SameSet(classes, x, y)
    requires ch in letters && (x, ch) in move && (y, ch) in move
    ensures SameSet(classes, move[(x, ch)], move[(y, ch)])
  {
    var i :| 0 <= i < |states| && states[i] == x;
    var j :| 0 <= j < |states| && states[j] == y;
    assert move[(x, ch)] in states && move[(y, ch)] in states;
    if !Equivalent(move, letters, final, move[(x, ch)], move[(y, ch)]) {
      Separate(move, letters, final, x, y, ch);
    }
  }

  /** Every state of a rebuilt transition's source class that moves on its
      letter moves into the transition's target class. */
  lemma TransitionsFollowClasses<S>(order: seq<(S, Symbol)>, move: Move<S>, states: seq<S>, classes: seq<seq<S>>,
                                    letters: seq<Symbol>, final: seq<S>, e: (seq<S>, Symbol, seq<S>), x: S)
    requires forall k :: 0 <= k < |order| ==> order[k] in move && order[k].1 in letters
    requires Partition(classes) && Elements(classes) == set s | s in states
    requires forall s :: s in states ==> Listed(classes, s)
    requires forall a, b :: a in states && b in states ==>
               (SameSet(classes, a, b) <==> Equivalent(move, letters, final, a, b))
    requires Closed(move, letters, states)
    requires e in Rebuild(order, move, states, classes)
    requires x in e.0 && (x, e.1) in move
    ensures move[(x, e.1)] in e.2
  {
    RebuildLifted(order, move, states, classes);
    var t := Rebuild(order, move, states, classes);
    var i :| 0 <= i < |t| && t[i] == e;
    assert Lifted(order, move, states, classes, t[i]);
    var k :| 0 <= k < |order| && order[k].0 in states && move[order[k]] in states &&
      e == (ClassOf(classes, order[k].0), order[k].1, ClassOf(classes, move[order[k]]));
    var curr, ch := order[k].0, order[k].1;
    assert x in Elements(classes);
    assert SameSet(classes, x, curr);
    ClassMovesAgree(classes, states, letters, move, final, x, curr, ch);
    var c :| 0 <= c < |classes| && move[(x, ch)] in classes[c] && move[order[k]] in classes[c];
    IndexOfSpec(classes, move[order[k]]);
  }

  /** Step 4 for the transitions. */
  method RebuildTransitions<S(==)>(order: seq<(S, Symbol)>, move: Move<S>, states: seq<S>, classes: seq<seq<S>>)
    returns (t: seq<(seq<S>, Symbol, seq<S>)>)
    requires forall k :: 0 <= k < |order| ==> order[k] in move
    requires forall x :: x in states ==> Listed(classes, x)
    ensures t == Rebuild(order, move, states, classes)
  {
    t := [];
    for k := 0 to |order|
      invariant t == Rebuild(order[..k], move, states, classes)
    {
      assert order[..k + 1][..k] == order[..k];
      var key := order[k];
      var next := move[key];
      if key.0 in states && next in states {
        var c := ClassOf(classes, key.0);
        var done := false;
        for i := 0 to |t|
          invariant done <==> exists j :: 0 <= j < i && multiset(t[j].0) == multiset(c) && t[j].1 == key.1
        {
          if multiset(t[i].0) == multiset(c) && t[i].1 == key.1 {
            done := true;
          }
        }
        if !done {
          t := t + [(c, key.1, ClassOf(classes, next))];
        }
      }
    }
    assert order[..|order|] == order;
  }

  /** Every state is in some class. */
  lemma AllListed<S>(classes: seq<seq<S>>, states: seq<S>)
    requires Elements(classes) == set x | x in states
    ensures forall x :: x in states ==> Listed(classes, x)
  {
    forall x | x in states
      ensures Listed(classes, x)
    {
      assert x in Elements(classes);
    }
  }

  /** What minimize leaves: the language classes of the states, the classes
      meeting the start and the final states, and the moves lifted to them. */
  ghost predicate MinimalOf<S>(d: MinDfa<S>, states: seq<S>, letters: seq<Symbol>, move: Move<S>,
                               order: seq<(S, Symbol)>, start: seq<S>, final: seq<S>)
  {
    && Partition(d.states) && Elements(d.states) == (set x | x in states)
    && (forall x, y :: x in states && y in states ==>
          (SameSet(d.states, x, y) <==> Equivalent(move, letters, final, x, y)))
    && d.letters == letters
    && d.start == ClassesMeeting(d.states, start)
    && d.final == ClassesMeeting(d.states, final)
    && (forall k :: 0 <= k < |order| ==> order[k] in move)
    && (forall x :: x in states ==> Listed(d.states, x))
    && d.transitions == Rebuild(order, move, states, d.states)
  }

  /** Steps 1 to 4 of minimize, on states closed under the moves. */
  method MinimizeReachable<S(==,!new)>(states: seq<S>, letters: seq<Symbol>, move: Move<S>, order: seq<(S, Symbol)>,
                                  start: seq<S>, final: seq<S>)
    returns (r: Option<MinDfa<S>>)
    requires Closed(move, letters, states)
    requires forall k :: 0 <= k < |order| ==> order[k] in move
    ensures r.None? <==> Fix(Combos(states), letters, move, InitialMarks(Combos(states), final)).None?
    ensures (forall s, ch :: s in states && ch in letters ==> (s, ch) in move) ==> r.Some?
    ensures r.Some? ==> MinimalOf(r.value, states, letters, move, order, start, final)
  {
    var combos := Combos(states);
    var m0 := InitialMarking(combos, final);
    if forall s, ch :: s in states && ch in letters ==> (s, ch) in move {
      FixTotal(states, letters, move, m0);
    }
    var marks := Propagate(combos, letters, move, m0);
    if marks.None? {
      return None;
    }
    MarkingExact(states, letters, move, final);
    var classes := Merge(states, marks.value, letters, move, final);
    var startClasses := SelectClasses(classes, start);
    var finalClasses := SelectClasses(classes, final);
    AllListed(classes, states);
    var trans := RebuildTransitions(order, move, states, classes);
    r := Some(MinDfa(classes, letters, trans, startClasses, finalClasses));
  }

  // ---------------------------------------------------------------------------
  // The automaton

  class Dfa<S(==,!new)> {
    var states: seq<S>
    var letters: seq<Symbol>
    var transitions: seq<(S, Symbol, S)>
    var start: seq<S>
    var final: seq<S>
    /** The move dict and its keys in insertion order. */
    var move: Move<S>
    var moveOrder: seq<(S, Symbol)>

    ghost predicate Valid()
      reads this
    {
      move == Moves(transitions) && moveOrder == MoveOrder(transitions)
    }

    constructor (states: seq<S>, letters: seq<Symbol>, transitions: seq<(S, Symbol, S)>, start: seq<S>, final: seq<S>)
      ensures Valid()
      ensures this.states == states && this.letters == letters && this.transitions == transitions
      ensures this.start == start && this.final == final
    {
      this.states := states;
      this.letters := letters;
      this.transitions := transitions;
      this.start := start;
      this.final := final;
      move := map[];
      moveOrder := [];
      new;
      MakeMovements();
    }

    /** The move dict, the last transition for a key winning. */
    method MakeMovements()
      modifies this
      ensures Valid()
      ensures states == old(states) && letters == old(letters) && transitions == old(transitions)
      ensures start == old(start) && final == old(final)
    {
      var ts := transitions;
      var mv: Move<S> := map[];
      var order: seq<(S, Symbol)> := [];
      for k := 0 to |ts|
        invariant unchanged(this)
        invariant mv == Moves(ts[..k]) && order == MoveOrder(ts[..k])
      {
        assert ts[..k + 1][..k] == ts[..k];
        MoveOrderSpec(ts[..k]);
        var (f, l, t) := ts[k];
        if (f, l) !in mv {
          order := order + [(f, l)];
        }
        mv := mv[(f, l) := t];
      }
      assert ts[..|ts|] == ts;
      move := mv;
      moveOrder := order;
    }

    /** Keeps the states reachable from the start states, in search order
        with the start states first, and the final states among them. */
    method RemoveUnreachable()
      requires Valid()
      modifies this
      ensures Valid()
      ensures letters == old(letters) && transitions == old(transitions) && start == old(start)
      ensures states == SearchOrder(move, letters, start, 0)
      ensures |states| >= |start| && states[..|start|] == start
      ensures Closed(move, letters, states) && Discovered(move, letters, states, |start|)
      ensures forall x :: x in states <==> Reachable(move, letters, start, x)
      ensures NoDuplicates(start) ==> NoDuplicates(states)
      ensures final == Filter(old(final), states)
    {
      var reach := Bfs(move, letters, start);
      BfsExact(move, letters, start, reach);
      if NoDuplicates(start) {
        BfsNoNewDuplicates(move, letters, start, reach);
      }
      states := reach;
      final := FilterIn(final, reach);
    }

    /** minimize: None when a move the marking reads is missing. */
    method Minimize() returns (r: Option<MinDfa<S>>)
      requires Valid()
      modifies this
      ensures Valid()
      ensures letters == old(letters) && transitions == old(transitions) && start == old(start)
      ensures forall x :: x in states <==> Reachable(move, letters, start, x)
      ensures Closed(move, letters, states)
      ensures final == Filter(old(final), states)
      ensures r.None? <==> Fix(Combos(states), letters, move, InitialMarks(Combos(states), final)).None?
      ensures (forall s, ch :: s in states && ch in letters ==> (s, ch) in move) ==> r.Some?
      ensures r.Some? ==> MinimalOf(r.value, states, letters, move, moveOrder, start, final)
    {
      RemoveUnreachable();
      MoveOrderSpec(transitions);
      r := MinimizeReachable(states, letters, move, moveOrder, start, final);
    }
  }
}
