/** The pair marking of q4.py's minimize (the table-filling form of the
    Myhill-Nerode construction): mark the pairs that one final state tells
    apart, then pass over the pairs until a pass marks nothing. A marked pair is
    a pair of states with different languages, and at the fixpoint every pair
    with different languages is marked. */
module Marking {
  import opened Common
  import opened Reach

  // ---------------------------------------------------------------------------
  // Pairs of states

  function Pairs<S>(a: S, ys: seq<S>): seq<(S, S)> {
    if ys == [] then [] else [(a, ys[0])] + Pairs(a, ys[1..])
  }

  /** itertools.combinations(xs, 2): (xs[a], xs[b]) for a < b, a-major. */
  function Combos<S>(xs: seq<S>): seq<(S, S)> {
    if xs == [] then [] else Pairs(xs[0], xs[1..]) + Combos(xs[1..])
  }

  lemma {:induction false} PairsSpec<S>(a: S, ys: seq<S>, p: (S, S))
    ensures p in Pairs(a, ys) <==> exists b :: 0 <= b < |ys| && p == (a, ys[b])
  {
    if ys != [] {
      PairsSpec(a, ys[1..], p);
      if exists b :: 0 <= b < |ys| && p == (a, ys[b]) {
        var b :| 0 <= b < |ys| && p == (a, ys[b]);
        if b > 0 {
          assert p == (a, ys[1..][b - 1]);
        }
      }
      if exists b :: 0 <= b < |ys[1..]| && p == (a, ys[1..][b]) {
        var b :| 0 <= b < |ys[1..]| && p == (a, ys[1..][b]);
        assert p == (a, ys[b + 1]);
      }
    }
  }

  /** The pairs are exactly the entries at two positions a < b, in that order. */
  lemma {:induction false} CombosSpec<S>(xs: seq<S>, p: (S, S))
    ensures p in Combos(xs) <==> exists a, b :: 0 <= a < b < |xs| && p == (xs[a], xs[b])
  {
    if xs != [] {
      var rest := xs[1..];
      CombosSpec(rest, p);
      PairsSpec(xs[0], rest, p);
      if p in Combos(xs) {
        if p in Pairs(xs[0], rest) {
          var b :| 0 <= b < |rest| && p == (xs[0], rest[b]);
          assert p == (xs[0], xs[b + 1]);
        } else {
          var a, b :| 0 <= a < b < |rest| && p == (rest[a], rest[b]);
          assert p == (xs[a + 1], xs[b + 1]);
        }
      }
      if exists a, b :: 0 <= a < b < |xs| && p == (xs[a], xs[b]) {
        var a, b :| 0 <= a < b < |xs| && p == (xs[a], xs[b]);
        if a == 0 {
          assert p == (xs[0], rest[b - 1]);
        } else {
          assert p == (rest[a - 1], rest[b - 1]);
        }
      }
    }
  }

  /** Both states of a pair are listed, and two different listed states form a
      pair in one order or the other. */
  lemma CombosCover<S>(xs: seq<S>, x: S, y: S)
    ensures (x, y) in Combos(xs) ==> x in xs && y in xs
    ensures x in xs && y in xs && x != y ==> (x, y) in Combos(xs) || (y, x) in Combos(xs)
  {
    CombosSpec(xs, (x, y));
    CombosSpec(xs, (y, x));
    if x in xs && y in xs && x != y {
      var a :| 0 <= a < |xs| && xs[a] == x;
      var b :| 0 <= b < |xs| && xs[b] == y;
      if a < b {
        assert (x, y) == (xs[a], xs[b]);
      } else {
        assert (y, x) == (xs[b], xs[a]);
      }
    }
  }

  // ---------------------------------------------------------------------------
  // The languages of states

  /** The state reached from s by reading w, or None once a move is missing. */
  function Run<S(==)>(move: Move<S>, s: S, w: seq<Symbol>): Option<S> {
    if w == [] then Some(s)
    else if (s, w[0]) in move then Run(move, move[(s, w[0])], w[1..])
    else None
  }

  ghost predicate Word(letters: seq<Symbol>, w: seq<Symbol>) {
    forall k :: 0 <= k < |w| ==> w[k] in letters
  }

  ghost predicate Accepts<S>(move: Move<S>, final: seq<S>, s: S, w: seq<Symbol>) {
    Run(move, s, w).Some? && Run(move, s, w).value in final
  }

  /** p and q accept the same words over the letters. */
  ghost predicate Equivalent<S>(move: Move<S>, letters: seq<Symbol>, final: seq<S>, p: S, q: S) {
    forall w :: Word(letters, w) ==> (Accepts(move, final, p, w) <==> Accepts(move, final, q, w))
  }

  /** Every marked pair has different languages. */
  ghost predicate Sound<S>(move: Move<S>, letters: seq<Symbol>, final: seq<S>, m: seq<(S, S)>) {
    forall k :: 0 <= k < |m| ==> !Equivalent(move, letters, final, m[k].0, m[k].1)
  }

  /** Equivalence is an equivalence relation. */
  lemma EquivalentTrans<S>(move: Move<S>, letters: seq<Symbol>, final: seq<S>, p: S, q: S, r: S)
    ensures Equivalent(move, letters, final, p, p)
    ensures Equivalent(move, letters, final, p, q) ==> Equivalent(move, letters, final, q, p)
    ensures Equivalent(move, letters, final, p, q) && Equivalent(move, letters, final, q, r) ==>
              Equivalent(move, letters, final, p, r)
  {
  }

  /** A letter on which the moves of p and q lead to states with different
      languages tells p and q apart. */
  lemma Separate<S>(move: Move<S>, letters: seq<Symbol>, final: seq<S>, p: S, q: S, ch: Symbol)
    requires ch in letters && (p, ch) in move && (q, ch) in move
    requires !Equivalent(move, letters, final, move[(p, ch)], move[(q, ch)])
    ensures !Equivalent(move, letters, final, p, q)
  {
    var w :| Word(letters, w) &&
      (Accepts(move, final, move[(p, ch)], w) != Accepts(move, final, move[(q, ch)], w));
    var w' := [ch] + w;
    assert w'[1..] == w;
    assert Word(letters, w');
    assert Accepts(move, final, p, w') != Accepts(move, final, q, w');
  }

  // ---------------------------------------------------------------------------
  // Marking

  function Marked<S(==)>(m: seq<(S, S)>, a: S, b: S): bool {
    (a, b) in m || (b, a) in m
  }

  /** Step 1: the pairs with exactly one final state, in pair order. */
  function InitialMarks<S(==)>(combos: seq<(S, S)>, final: seq<S>): seq<(S, S)> {
    if combos == [] then []
    else
      var p := combos[|combos| - 1];
      InitialMarks(combos[..|combos| - 1], final) + (if (p.0 in final) != (p.1 in final) then [p] else [])
  }

  /** A pair is marked at first iff exactly one of its states is final. */
  lemma {:induction false} InitialMarksSpec<S>(combos: seq<(S, S)>, final: seq<S>, p: (S, S))
    ensures p in InitialMarks(combos, final) <==> p in combos && (p.0 in final) != (p.1 in final)
  {
    if combos != [] {
      var init := combos[..|combos| - 1];
      InitialMarksSpec(init, final, p);
      assert combos == init + [combos[|combos| - 1]];
    }
  }

  /** The first marks separate their states by the empty word. */
  lemma InitialSound<S>(move: Move<S>, letters: seq<Symbol>, final: seq<S>, combos: seq<(S, S)>)
    ensures Sound(move, letters, final, InitialMarks(combos, final))
  {
    var m := InitialMarks(combos, final);
    forall k | 0 <= k < |m|
      ensures !Equivalent(move, letters, final, m[k].0, m[k].1)
    {
      InitialMarksSpec(combos, final, m[k]);
      assert Word(letters, []);
      assert Accepts(move, final, m[k].0, []) != Accepts(move, final, m[k].1, []);
    }
  }

  /** Step 2 for one pair: the letters in order; a missing move is an error,
      and a letter leading to a marked pair marks this one. */
  function CheckPair<S(==)>(p: (S, S), letters: seq<Symbol>, move: Move<S>, m: seq<(S, S)>): Option<bool> {
    if letters == [] then Some(false)
    else
      var ch := letters[0];
      if (p.0, ch) !in move || (p.1, ch) !in move then None
      else if Marked(m, move[(p.0, ch)], move[(p.1, ch)]) then Some(true)
      else CheckPair(p, letters[1..], move, m)
  }

  /** The check marks iff some letter leads to a marked pair with no missing
      move before it; it passes iff every letter has both moves, leading to an
      unmarked pair; it fails only on a missing move. */
  lemma {:induction false} CheckPairSpec<S>(p: (S, S), letters: seq<Symbol>, move: Move<S>, m: seq<(S, S)>)
    ensures CheckPair(p, letters, move, m) == Some(true) ==>
              exists ch :: ch in letters && (p.0, ch) in move && (p.1, ch) in move && Marked(m, move[(p.0, ch)], move[(p.1, ch)])
    ensures CheckPair(p, letters, move, m) == Some(false) <==>
              forall ch :: ch in letters ==> (p.0, ch) in move && (p.1, ch) in move && !Marked(m, move[(p.0, ch)], move[(p.1, ch)])
    ensures CheckPair(p, letters, move, m).None? ==>
              exists ch :: ch in letters && ((p.0, ch) !in move || (p.1, ch) !in move)
  {
    if letters != [] {
      CheckPairSpec(p, letters[1..], move, m);
      assert letters == [letters[0]] + letters[1..];
    }
  }

  /** One pass of step 2 over the pairs in order; a pair marked earlier in the
      pass counts for the later ones. */
  function Pass<S(==)>(combos: seq<(S, S)>, letters: seq<Symbol>, move: Move<S>, m: seq<(S, S)>): Option<seq<(S, S)>> {
    if combos == [] then Some(m)
    else
      match Pass(combos[..|combos| - 1], letters, move, m)
      case None => None
      case Some(m') =>
        var p := combos[|combos| - 1];
        if p in m' then Some(m')
        else
          match CheckPair(p, letters, move, m')
          case None => None
          case Some(mark) => if mark then Some(m' + [p]) else Some(m')
  }

  /** A pass only appends, and what it appends are new pairs. */
  lemma {:induction false} PassGrows<S>(combos: seq<(S, S)>, letters: seq<Symbol>, move: Move<S>, m: seq<(S, S)>)
    requires Pass(combos, letters, move, m).Some?
    ensures var m' := Pass(combos, letters, move, m).value;
      |m'| >= |m| && m'[..|m|] == m &&
      forall k :: |m| <= k < |m'| ==> m'[k] in combos && m'[k] !in m'[..k]
  {
    if combos != [] {
      var init := combos[..|combos| - 1];
      PassGrows(init, letters, move, m);
      var m0 := Pass(init, letters, move, m).value;
      var m' := Pass(combos, letters, move, m).value;
      if m' != m0 {
        assert m' == m0 + [combos[|combos| - 1]];
        assert m'[..|m0|] == m0;
        assert m'[..|m|] == m0[..|m|];
      }
    }
  }

  /** A pass that marks nothing leaves every pair marked or passing its check. */
  lemma {:induction false} PassStable<S>(combos: seq<(S, S)>, letters: seq<Symbol>, move: Move<S>, m: seq<(S, S)>)
    requires Pass(combos, letters, move, m) == Some(m)
    ensures forall p :: p in combos ==> p in m || CheckPair(p, letters, move, m) == Some(false)
  {
    if combos != [] {
      var init := combos[..|combos| - 1];
      PassGrows(init, letters, move, m);
      var m0 := Pass(init, letters, move, m).value;
      PassGrows(combos, letters, move, m);
      assert |m0| <= |m|;
      assert m0 == m;
      PassStable(init, letters, move, m);
      assert combos == init + [combos[|combos| - 1]];
    }
  }

  /** A pass keeps the marks sound. */
  lemma {:induction false} PassSound<S>(combos: seq<(S, S)>, letters: seq<Symbol>, move: Move<S>, final: seq<S>, m: seq<(S, S)>)
    requires Sound(move, letters, final, m) && Pass(combos, letters, move, m).Some?
    ensures Sound(move, letters, final, Pass(combos, letters, move, m).value)
  {
    if combos != [] {
      var init := combos[..|combos| - 1];
      PassSound(init, letters, move, final, m);
      var m0 := Pass(init, letters, move, m).value;
      var p := combos[|combos| - 1];
      if p !in m0 && CheckPair(p, letters, move, m0) == Some(true) {
        CheckPairSpec(p, letters, move, m0);
        var ch :| ch in letters && (p.0, ch) in move && (p.1, ch) in move && Marked(m0, move[(p.0, ch)], move[(p.1, ch)]);
        var a, b := move[(p.0, ch)], move[(p.1, ch)];
        if (a, b) in m0 {
          var k :| 0 <= k < |m0| && m0[k] == (a, b);
        } else {
          var k :| 0 <= k < |m0| && m0[k] == (b, a);
          EquivalentTrans(move, letters, final, a, b, a);
        }
        Separate(move, letters, final, p.0, p.1, ch);
      }
    }
  }

  /** The pairs not marked yet. */
  ghost function Unmarked<S>(combos: seq<(S, S)>, m: seq<(S, S)>): set<(S, S)> {
    (set p | p in combos) - (set p | p in m)
  }

  /** Step 2 to the fixpoint: passes until one marks nothing. It stops because
      every other pass marks a pair not marked before. */
  function Fix<S(==)>(combos: seq<(S, S)>, letters: seq<Symbol>, move: Move<S>, m: seq<(S, S)>): Option<seq<(S, S)>>
    decreases |Unmarked(combos, m)|
  {
    match Pass(combos, letters, move, m)
    case None => None
    case Some(m') =>
      if |m'| == |m| then Some(m)
      else
        PassProgress(combos, letters, move, m);
        Fix(combos, letters, move, m')
  }

  /** A pass that marks something shrinks the unmarked pairs. */
  lemma PassProgress<S>(combos: seq<(S, S)>, letters: seq<Symbol>, move: Move<S>, m: seq<(S, S)>)
    requires Pass(combos, letters, move, m).Some? && |Pass(combos, letters, move, m).value| != |m|
    ensures |Unmarked(combos, Pass(combos, letters, move, m).value)| < |Unmarked(combos, m)|
  {
    var m' := Pass(combos, letters, move, m).value;
    PassGrows(combos, letters, move, m);
    var y := m'[|m|];
    assert y !in m by {
      assert m'[..|m|] == m;
    }
    assert (set p | p in m) <= (set p | p in m') by {
      forall p | p in m
        ensures p in m'
      {
        var k :| 0 <= k < |m| && m[k] == p;
        assert m'[k] == p;
      }
    }
    SetShrinks((set p | p in combos), (set p | p in m), (set p | p in m'), y);
  }

  /** The fixpoint keeps every earlier mark, is stable, and stays sound. */
  lemma {:induction false} FixFacts<S>(combos: seq<(S, S)>, letters: seq<Symbol>, move: Move<S>, final: seq<S>, m: seq<(S, S)>)
    requires Fix(combos, letters, move, m).Some?
    ensures var r := Fix(combos, letters, move, m).value;
      && |r| >= |m| && r[..|m|] == m
      && Pass(combos, letters, move, r) == Some(r)
      && (Sound(move, letters, final, m) ==> Sound(move, letters, final, r))
    decreases |Unmarked(combos, m)|
  {
    var m' := Pass(combos, letters, move, m).value;
    PassGrows(combos, letters, move, m);
    if |m'| == |m| {
      assert m' == m'[..|m|];
    } else {
      PassProgress(combos, letters, move, m);
      FixFacts(combos, letters, move, final, m');
      if Sound(move, letters, final, m) {
        PassSound(combos, letters, move, final, m);
      }
      var r := Fix(combos, letters, move, m').value;
      assert r[..|m|] == r[..|m'|][..|m|];
    }
  }

  /** With every move of the listed states defined, no check fails, so the
      fixpoint is reached without error. */
  lemma {:induction false} FixTotal<S>(states: seq<S>, letters: seq<Symbol>, move: Move<S>, m: seq<(S, S)>)
    requires forall s, ch :: s in states && ch in letters ==> (s, ch) in move
    ensures Fix(Combos(states), letters, move, m).Some?
    decreases |Unmarked(Combos(states), m)|
  {
    var combos := Combos(states);
    PassTotal(states, combos, letters, move, m);
    var m' := Pass(combos, letters, move, m).value;
    if |m'| != |m| {
      PassProgress(combos, letters, move, m);
      FixTotal(states, letters, move, m');
    }
  }

  lemma {:induction false} PassTotal<S>(states: seq<S>, combos: seq<(S, S)>, letters: seq<Symbol>, move: Move<S>, m: seq<(S, S)>)
    requires forall s, ch :: s in states && ch in letters ==> (s, ch) in move
    requires forall p :: p in combos ==> p in Combos(states)
    ensures Pass(combos, letters, move, m).Some?
  {
    if combos != [] {
      var init := combos[..|combos| - 1];
      var p := combos[|combos| - 1];
      PassTotal(states, init, letters, move, m);
      var m0 := Pass(init, letters, move, m).value;
      CombosCover(states, p.0, p.1);
      CheckPairSpec(p, letters, move, m0);
    }
  }

  // ---------------------------------------------------------------------------
  // Completeness at the fixpoint

  /** x and y are one state, or a pair in some order that is left unmarked. */
  ghost predicate Unseparated<S>(combos: seq<(S, S)>, m: seq<(S, S)>, x: S, y: S) {
    x == y || ((x, y) in combos && (x, y) !in m) || ((y, x) in combos && (y, x) !in m)
  }

  /** At a stable marking that contains the first marks, states that are not
      separated accept the same words. */
  lemma {:induction false} Agree<S>(states: seq<S>, letters: seq<Symbol>, move: Move<S>, final: seq<S>, m: seq<(S, S)>,
                                    x: S, y: S, w: seq<Symbol>)
    requires Closed(move, letters, states)
    requires forall p :: p in Combos(states) ==> p in m || CheckPair(p, letters, move, m) == Some(false)
    requires forall p :: p in Combos(states) && (p.0 in final) != (p.1 in final) ==> p in m
    requires x in states && y in states && Unseparated(Combos(states), m, x, y)
    requires Word(letters, w)
    ensures Accepts(move, final, x, w) <==> Accepts(move, final, y, w)
    decreases |w|
  {
    var combos := Combos(states);
    if x != y {
      var p := if (x, y) in combos && (x, y) !in m then (x, y) else (y, x);
      assert p in combos && p !in m;
      if w != [] {
        var ch := w[0];
        assert ch in letters;
        CheckPairSpec(p, letters, move, m);
        var x', y' := move[(x, ch)], move[(y, ch)];
        var i :| 0 <= i < |states| && states[i] == x;
        var j :| 0 <= j < |states| && states[j] == y;
        assert x' in states && y' in states;
        assert !Marked(m, x', y');
        CombosCover(states, x', y');
        CombosCover(states, y', x');
        assert Word(letters, w[1..]);
        Agree(states, letters, move, final, m, x', y', w[1..]);
      }
    }
  }

  /** The marking of minimize: the first marks, then passes to the fixpoint.
      Given states closed under the moves, a pair ends up marked iff its states
      accept different words, and no failure occurs when every move of the
      states is defined. */
  lemma MarkingExact<S>(states: seq<S>, letters: seq<Symbol>, move: Move<S>, final: seq<S>)
    requires Closed(move, letters, states)
    requires Fix(Combos(states), letters, move, InitialMarks(Combos(states), final)).Some?
    ensures var m := Fix(Combos(states), letters, move, InitialMarks(Combos(states), final)).value;
      && (forall p :: p in m ==> p in Combos(states))
      && (forall p :: p in Combos(states) ==> (p in m <==> !Equivalent(move, letters, final, p.0, p.1)))
      && (forall x, y :: x in states && y in states ==>
            (Marked(m, x, y) <==> !Equivalent(move, letters, final, x, y)))
  {
    var combos := Combos(states);
    var m0 := InitialMarks(combos, final);
    var m := Fix(combos, letters, move, m0).value;
    InitialSound(move, letters, final, combos);
    FixFacts(combos, letters, move, final, m0);
    PassStable(combos, letters, move, m);
    forall p | p in m0
      ensures p in combos
    {
      InitialMarksSpec(combos, final, p);
    }
    FixMembers(combos, letters, move, m0);
    forall p | p in combos && (p.0 in final) != (p.1 in final)
      ensures p in m
    {
      InitialMarksSpec(combos, final, p);
      var k :| 0 <= k < |m0| && m0[k] == p;
      assert m[k] == p;
    }
    forall x, y | x in states && y in states && Unseparated(combos, m, x, y)
      ensures Equivalent(move, letters, final, x, y)
    {
      forall w | Word(letters, w)
        ensures Accepts(move, final, x, w) <==> Accepts(move, final, y, w)
      {
        Agree(states, letters, move, final, m, x, y, w);
      }
    }
    forall p | p in combos
      ensures p in m <==> !Equivalent(move, letters, final, p.0, p.1)
    {
      CombosCover(states, p.0, p.1);
      if p in m {
        var k :| 0 <= k < |m| && m[k] == p;
      } else {
        assert Unseparated(combos, m, p.0, p.1);
      }
    }
    forall x, y | x in states && y in states
      ensures Marked(m, x, y) <==> !Equivalent(move, letters, final, x, y)
    {
      CombosCover(states, x, y);
      CombosCover(states, y, x);
      if Marked(m, x, y) {
        if (x, y) in m {
          var k :| 0 <= k < |m| && m[k] == (x, y);
        } else {
          var k :| 0 <= k < |m| && m[k] == (y, x);
          EquivalentTrans(move, letters, final, x, y, x);
        }
      } else {
        assert Unseparated(combos, m, x, y);
      }
    }
  }

  /** Marks are pairs, as long as the first marks are. */
  lemma {:induction false} FixMembers<S>(combos: seq<(S, S)>, letters: seq<Symbol>, move: Move<S>, m: seq<(S, S)>)
    requires Fix(combos, letters, move, m).Some?
    requires forall p :: p in m ==> p in combos
    ensures forall p :: p in Fix(combos, letters, move, m).value ==> p in combos
    decreases |Unmarked(combos, m)|
  {
    var m' := Pass(combos, letters, move, m).value;
    if |m'| != |m| {
      PassGrows(combos, letters, move, m);
      forall p | p in m'
        ensures p in combos
      {
        var k :| 0 <= k < |m'| && m'[k] == p;
        if k < |m| {
          assert m'[..|m|][k] == p;
        }
      }
      PassProgress(combos, letters, move, m);
      FixMembers(combos, letters, move, m');
    }
  }

  // ---------------------------------------------------------------------------
  // The loops of minimize

  /** Step 1 of minimize. */
  method InitialMarking<S(==)>(combos: seq<(S, S)>, final: seq<S>) returns (m: seq<(S, S)>)
    ensures m == InitialMarks(combos, final)
  {
    m := [];
    for k := 0 to |combos|
      invariant m == InitialMarks(combos[..k], final)
    {
      assert combos[..k + 1][..k] == combos[..k];
      var p := combos[k];
      if p.0 in final && p.1 !in final {
        m := m + [p];
      } else if p.0 !in final && p.1 in final {
        m := m + [p];
      }
    }
    assert combos[..|combos|] == combos;
  }

  /** The letter loop for one pair, stopping at the first marking letter. */
  method Check<S(==)>(p: (S, S), letters: seq<Symbol>, move: Move<S>, m: seq<(S, S)>) returns (r: Option<bool>)
    ensures r == CheckPair(p, letters, move, m)
  {
    for k := 0 to |letters|
      invariant CheckPair(p, letters, move, m) == CheckPair(p, letters[k..], move, m)
    {
      var ch := letters[k];
      assert letters[k..][1..] == letters[k + 1..];
      if (p.0, ch) !in move || (p.1, ch) !in move {
        return None;
      }
      var n0 := move[(p.0, ch)];
      var n1 := move[(p.1, ch)];
      if (n0, n1) in m || (n1, n0) in m {
        return Some(true);
      }
    }
    return Some(false);
  }

  /** One pass of step 2. */
  method RunPass<S(==)>(combos: seq<(S, S)>, letters: seq<Symbol>, move: Move<S>, m0: seq<(S, S)>)
    returns (r: Option<seq<(S, S)>>)
    ensures r == Pass(combos, letters, move, m0)
  {
    var m := m0;
    for k := 0 to |combos|
      invariant Pass(combos[..k], letters, move, m0) == Some(m)
    {
      assert combos[..k + 1][..k] == combos[..k];
      var p := combos[k];
      if p !in m {
        var mark := Check(p, letters, move, m);
        if mark.None? {
          PassStuck(combos, letters, move, m0, k + 1);
          return None;
        }
        if mark.value {
          m := m + [p];
        }
      }
    }
    assert combos[..|combos|] == combos;
    return Some(m);
  }

  /** Once a prefix of the pairs fails, the whole pass fails. */
  lemma {:induction false} PassStuck<S>(combos: seq<(S, S)>, letters: seq<Symbol>, move: Move<S>, m: seq<(S, S)>, k: nat)
    requires k <= |combos| && Pass(combos[..k], letters, move, m).None?
    ensures Pass(combos, letters, move, m).None?
    decreases |combos| - k
  {
    if k < |combos| {
      assert combos[..k + 1][..k] == combos[..k];
      PassStuck(combos, letters, move, m, k + 1);
    } else {
      assert combos[..k] == combos;
    }
  }

  /** Step 2 of minimize: passes until one marks nothing. */
  method Propagate<S(==)>(combos: seq<(S, S)>, letters: seq<Symbol>, move: Move<S>, m0: seq<(S, S)>)
    returns (r: Option<seq<(S, S)>>)
    ensures r == Fix(combos, letters, move, m0)
  {
    var m := m0;
    while true
      invariant Fix(combos, letters, move, m0) == Fix(combos, letters, move, m)
      decreases |Unmarked(combos, m)|
    {
      var next := RunPass(combos, letters, move, m);
      if next.None? {
        return None;
      }
      if |next.value| == |m| {
        return Some(m);
      }
      PassProgress(combos, letters, move, m);
      m := next.value;
    }
  }
}
