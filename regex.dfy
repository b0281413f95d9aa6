/** The regular-expression front end of the Thompson construction (q1.py):
    operator precedence, explicit concatenation insertion and the
    shunting-yard conversion from infix to postfix. */
module Regex {
  import opened Common

  /** Binding strength of the three operators; every other character binds weakest. */
  const PrecedenceMap: map<char, int> := map['*' := 4, '.' := 3, '+' := 2]

  function PrecedenceOf(c: char): (p: int)
    ensures 1 <= p <= 4
    ensures p == 4 <==> c == '*'
    ensures p == 3 <==> c == '.'
    ensures p == 2 <==> c == '+'
  {
    if c in PrecedenceMap then PrecedenceMap[c] else 1
  }

  /** ASCII letters and digits. */
  predicate IsAlnum(c: char) {
    'a' <= c <= 'z' || 'A' <= c <= 'Z' || '0' <= c <= '9'
  }

  /** A character the parser emits directly: a letter, a digit or the empty string `$`. */
  predicate IsOperand(c: char) {
    IsAlnum(c) || c == '$'
  }

  /** A character that can close a sub-expression. */
  predicate CanEnd(c: char) {
    IsAlnum(c) || c == ')' || c == '*' || c == '$'
  }

  /** A character that can open a sub-expression. */
  predicate CanStart(c: char) {
    IsAlnum(c) || c == '(' || c == '$'
  }

  function CheckConcat(c1: char, c2: char): (r: bool)
    ensures r <==> CanEnd(c1) && CanStart(c2)
  {
    if IsAlnum(c1) || c1 == ')' || c1 == '*' || c1 == '$' then
      IsAlnum(c2) || c2 == '(' || c2 == '$'
    else
      false
  }

  // ---------------------------------------------------------------------------
  // Concatenation insertion

  /** Whether an explicit '.' is placed right after position i of re. */
  predicate DotAfter(re: string, i: nat) {
    i + 1 < |re| && CheckConcat(re[i], re[i + 1])
  }

  /** What position i of re becomes: the character, followed by '.' when one is inserted. */
  function Piece(re: string, i: nat): string
    requires i < |re|
  {
    if DotAfter(re, i) then [re[i], '.'] else [re[i]]
  }

  /** The pieces of the first n positions of re, in order. */
  function Dotted(re: string, n: nat): string
    requires n <= |re|
  {
    if n == 0 then "" else Dotted(re, n - 1) + Piece(re, n - 1)
  }

  method AddConcatenationOperator(re: string) returns (out: string)
    ensures out == Dotted(re, |re|)
  {
    out := "";
    for i := 0 to |re|
      invariant out == Dotted(re, i)
    {
      if i + 1 < |re| && CheckConcat(re[i], re[i + 1]) {
        out := out + [re[i], '.'];
      } else {
        out := out + [re[i]];
      }
    }
  }

  lemma {:induction false} DottedPrefix(re: string, i: nat, n: nat)
    requires i <= n <= |re|
    ensures |Dotted(re, i)| <= |Dotted(re, n)|
    ensures Dotted(re, n)[..|Dotted(re, i)|] == Dotted(re, i)
  {
    if i < n {
      DottedPrefix(re, i, n - 1);
      assert Dotted(re, n) == Dotted(re, n - 1) + Piece(re, n - 1);
    }
  }

  /** Position i of the input lands at offset |Dotted(re, i)| of the output; the
      next input position follows one step later, or two steps later exactly when
      a '.' was inserted, and that inserted character is '.'. */
  lemma DotPlacement(re: string, i: nat)
    requires i < |re|
    ensures |Dotted(re, i)| < |Dotted(re, |re|)|
    ensures Dotted(re, |re|)[|Dotted(re, i)|] == re[i]
    ensures |Dotted(re, i + 1)| == |Dotted(re, i)| + (if DotAfter(re, i) then 2 else 1)
    ensures DotAfter(re, i) ==> |Dotted(re, i)| + 1 < |Dotted(re, |re|)| && Dotted(re, |re|)[|Dotted(re, i)| + 1] == '.'
  {
    DottedPrefix(re, i + 1, |re|);
    var out := Dotted(re, |re|);
    var p := |Dotted(re, i)|;
    assert Dotted(re, i + 1) == Dotted(re, i) + Piece(re, i);
    assert out[..|Dotted(re, i + 1)|][p] == re[i];
    if DotAfter(re, i) {
      assert out[..|Dotted(re, i + 1)|][p + 1] == '.';
    }
  }

  /** The string with every '.' removed. */
  function RemoveDots(s: string): (r: string)
    ensures |r| <= |s|
  {
    if s == [] then "" else RemoveDots(s[..|s| - 1]) + (if s[|s| - 1] == '.' then "" else [s[|s| - 1]])
  }

  lemma {:induction false} RemoveDotsAppend(a: string, b: string)
    ensures RemoveDots(a + b) == RemoveDots(a) + RemoveDots(b)
  {
    if b != [] {
      var b' := b[..|b| - 1];
      assert (a + b)[..|a + b| - 1] == a + b';
      RemoveDotsAppend(a, b');
    } else {
      assert a + b == a;
    }
  }

  lemma RemoveDotsPiece(re: string, i: nat)
    requires i < |re| && re[i] != '.'
    ensures RemoveDots(Piece(re, i)) == [re[i]]
  {
    var c := re[i];
    assert [c][..0] == [];
    assert RemoveDots([c]) == [c];
    if DotAfter(re, i) {
      assert [c, '.'][..1] == [c];
    }
  }

  /** On an input without explicit '.' operators, deleting the dots of the
      output gives the input back. */
  lemma {:induction false} InsertedDotsRemoved(re: string, n: nat)
    requires n <= |re|
    requires '.' !in re
    ensures RemoveDots(Dotted(re, n)) == re[..n]
  {
    if n > 0 {
      var c := re[n - 1];
      assert re[..n] == re[..n - 1] + [c];
      assert c != '.';
      InsertedDotsRemoved(re, n - 1);
      RemoveDotsAppend(Dotted(re, n - 1), Piece(re, n - 1));
      RemoveDotsPiece(re, n - 1);
    }
  }

  // ---------------------------------------------------------------------------
  // Parenthesis nesting

  /** Number of '(' minus number of ')'. */
  function Depth(s: string): int {
    multiset(s)['('] as int - multiset(s)[')'] as int
  }

  /** No prefix closes more parentheses than it opens: every ')' has a matching '('. */
  predicate WellNested(s: string) {
    s == [] || (WellNested(s[..|s| - 1]) && Depth(s) >= 0)
  }

  lemma {:induction false} WellNestedPrefixes(s: string)
    ensures WellNested(s) <==> forall k :: 0 <= k <= |s| ==> Depth(s[..k]) >= 0
  {
    if s != [] {
      var s' := s[..|s| - 1];
      WellNestedPrefixes(s');
      assert s[..|s|] == s;
      assert forall k :: 0 <= k <= |s'| ==> s'[..k] == s[..k];
    }
  }

  /** Appending one character keeps the nesting iff the new depth is not negative. */
  lemma NestedStep(s: string, c: char)
    ensures Depth(s + [c]) == Depth(s) + (if c == '(' then 1 else if c == ')' then -1 else 0)
    ensures WellNested(s + [c]) <==> WellNested(s) && Depth(s + [c]) >= 0
  {
    DepthStep(s, c);
    assert (s + [c])[..|s|] == s;
  }

  lemma PrefixSnoc(s: string, n: nat)
    requires 0 < n <= |s|
    ensures s[..n] == s[..n - 1] + [s[n - 1]]
  {
  }

  lemma NestedTransfer(a: string, b: string, c: char)
    requires Depth(a) == Depth(b) && (WellNested(a) <==> WellNested(b))
    ensures Depth(a + [c]) == Depth(b + [c])
    ensures WellNested(a + [c]) <==> WellNested(b + [c])
  {
    NestedStep(a, c);
    NestedStep(b, c);
  }

  /** One piece of the dotted string nests like the single character it stands for. */
  lemma NestedPiece(a: string, b: string, re: string, i: nat)
    requires i < |re|
    requires Depth(a) == Depth(b) && (WellNested(a) <==> WellNested(b))
    ensures Depth(a + Piece(re, i)) == Depth(b + [re[i]])
    ensures WellNested(a + Piece(re, i)) <==> WellNested(b + [re[i]])
  {
    var c := re[i];
    NestedTransfer(a, b, c);
    if DotAfter(re, i) {
      assert a + Piece(re, i) == (a + [c]) + ['.'];
      NestedStep(a + [c], '.');
    }
  }

  /** Inserting '.' characters changes neither the nesting depth nor whether the
      parentheses are well nested. */
  lemma {:induction false} DottedNesting(re: string, n: nat)
    requires n <= |re|
    ensures Depth(Dotted(re, n)) == Depth(re[..n])
    ensures WellNested(Dotted(re, n)) <==> WellNested(re[..n])
  {
    if n > 0 {
      DottedNesting(re, n - 1);
      PrefixSnoc(re, n);
      NestedPiece(Dotted(re, n - 1), re[..n - 1], re, n - 1);
    }
  }

  /** The operands of s, in order. */
  function Operands(s: string): string {
    if s == [] then ""
    else Operands(s[..|s| - 1]) + (if IsOperand(s[|s| - 1]) then [s[|s| - 1]] else "")
  }

  lemma DepthStep(s: string, c: char)
    ensures multiset(s + [c]) == multiset(s) + multiset{c}
    ensures Depth(s + [c]) == Depth(s) + (if c == '(' then 1 else if c == ')' then -1 else 0)
    ensures Operands(s + [c]) == Operands(s) + (if IsOperand(c) then [c] else "")
  {
    assert (s + [c])[..|s|] == s;
    assert multiset(s + [c]) == multiset(s) + multiset{c};
  }

  /** Equal counts of every character other than '.', and the same operands. */
  ghost predicate SameButDots(a: string, b: string) {
    (forall ch :: ch != '.' ==> multiset(a)[ch] == multiset(b)[ch]) && Operands(a) == Operands(b)
  }

  lemma SameButDotsStep(a: string, b: string, c: char)
    requires SameButDots(a, b)
    ensures SameButDots(a + [c], b + [c])
  {
    DepthStep(a, c);
    DepthStep(b, c);
  }

  lemma SameButDotsDot(a: string)
    ensures SameButDots(a + ['.'], a)
  {
    DepthStep(a, '.');
  }

  /** One piece of the dotted string counts like the single character it stands for. */
  lemma SameButDotsPiece(a: string, b: string, re: string, i: nat)
    requires i < |re| && SameButDots(a, b)
    ensures SameButDots(a + Piece(re, i), b + [re[i]])
  {
    var c := re[i];
    SameButDotsStep(a, b, c);
    if DotAfter(re, i) {
      assert a + Piece(re, i) == (a + [c]) + ['.'];
      SameButDotsDot(a + [c]);
    }
  }

  /** Inserting '.' characters keeps every other character's count and the
      operands in order. */
  lemma {:induction false} DottedCounts(re: string, n: nat)
    requires n <= |re|
    ensures SameButDots(Dotted(re, n), re[..n])
  {
    if n > 0 {
      DottedCounts(re, n - 1);
      PrefixSnoc(re, n);
      SameButDotsPiece(Dotted(re, n - 1), re[..n - 1], re, n - 1);
    }
  }

  // ---------------------------------------------------------------------------
  // Shunting-yard conversion, as values

  /** A ')' met while no '(' is open: the source's peek at an empty stack. */
  datatype ParseError = UnmatchedClose

  /** The string reversed: the order in which a stack's contents are popped. */
  function Reverse(s: string): (r: string)
    ensures |r| == |s|
  {
    if s == [] then [] else Reverse(s[1..]) + [s[0]]
  }

  /** Reversing keeps every character and its count. */
  lemma {:induction false} ReverseCounts(s: string)
    ensures multiset(Reverse(s)) == multiset(s)
    ensures forall c :: c in Reverse(s) <==> c in s
  {
    if s != [] {
      ReverseCounts(s[1..]);
      assert s == [s[0]] + s[1..];
    }
  }

  /** Popping one more entry puts it after those popped before. */
  lemma PopOne(out: string, s: string, k: nat)
    requires 0 < k <= |s|
    ensures (out + Reverse(s[k..])) + [s[k - 1]] == out + Reverse(s[k - 1..])
  {
    assert s[k - 1..][1..] == s[k..];
    assert Reverse(s[k - 1..]) == Reverse(s[k..]) + [s[k - 1]];
  }

  /** Reading operator c pops the stack down to k: every popped entry is an
      operator binding at least as tightly as c, and the entry left on top, if
      any, is '(' or binds less tightly (the inner loop for an operator). */
  predicate PopsTighter(stack: string, k: nat, c: char) {
    && k <= |stack|
    && (forall i :: k <= i < |stack| ==> stack[i] != '(' && PrecedenceOf(stack[i]) >= PrecedenceOf(c))
    && (k == 0 || stack[k - 1] == '(' || PrecedenceOf(stack[k - 1]) < PrecedenceOf(c))
  }

  /** Reading ')' pops the stack down to k: no popped entry is '(', and the
      entry left on top, if any, is '(' (the inner loop for ')'). */
  predicate PopsToOpen(stack: string, k: nat) {
    && k <= |stack|
    && (forall i :: k <= i < |stack| ==> stack[i] != '(')
    && (k == 0 || stack[k - 1] == '(')
  }

  /** Where popping for operator c stops. */
  function TighterSplit(stack: string, c: char): (k: nat)
    ensures PopsTighter(stack, k, c)
  {
    if |stack| > 0 && stack[|stack| - 1] != '(' && PrecedenceOf(stack[|stack| - 1]) >= PrecedenceOf(c) then
      TighterSplit(stack[..|stack| - 1], c)
    else
      |stack|
  }

  /** Where popping for ')' stops; 0 exactly when no '(' is on the stack. */
  function OpenSplit(stack: string): (k: nat)
    ensures PopsToOpen(stack, k)
    ensures k == 0 <==> '(' !in stack
  {
    if |stack| > 0 && stack[|stack| - 1] != '(' then OpenSplit(stack[..|stack| - 1]) else |stack|
  }

  /** One character read with output out and operator stack stack (top last): an
      operand is emitted, '(' is pushed, ')' pops to the output everything above
      the nearest '(' and drops that '(', and any other character pops the run of
      operators binding at least as tightly and is then pushed. None for a ')'
      with no '(' on the stack. */
  function Shunt(out: string, stack: string, c: char): Option<(string, string)> {
    if IsOperand(c) then Some((out + [c], stack))
    else if c == '(' then Some((out, stack + [c]))
    else if c == ')' then
      var k := OpenSplit(stack);
      if k == 0 then None else Some((out + Reverse(stack[k..]), stack[..k - 1]))
    else
      var k := TighterSplit(stack, c);
      Some((out + Reverse(stack[k..]), stack[..k] + [c]))
  }

  /** The output and the stack after reading all of re, or None at an unmatched ')'. */
  function ShuntAll(re: string): Option<(string, string)> {
    if re == [] then Some(("", ""))
    else match ShuntAll(re[..|re| - 1])
      case None => None
      case Some((out, stack)) => Shunt(out, stack, re[|re| - 1])
  }

  /** The postfix form: the output followed by the stack popped empty. */
  function Postfix(re: string): Option<string> {
    match ShuntAll(re)
    case None => None
    case Some((out, stack)) => Some(out + Reverse(stack))
  }

  lemma {:induction false} ShuntAllStuck(re: string, n: nat)
    requires n <= |re| && ShuntAll(re[..n]).None?
    ensures ShuntAll(re).None?
    decreases |re|
  {
    if n < |re| {
      var init := re[..|re| - 1];
      assert init[..n] == re[..n];
      ShuntAllStuck(init, n);
    } else {
      assert re[..n] == re;
    }
  }

  /** What the conversion keeps track of, after reading src: nothing emitted or
      stacked is a ')'; operands are never stacked; every other character of src
      is either emitted or stacked; every open '(' is emitted or stacked; and the
      operands were emitted in their input order. */
  ghost predicate Accounted(out: string, stack: string, src: string) {
    && ')' !in stack && ')' !in out
    && Operands(stack) == ""
    && (forall ch :: ch != '(' && ch != ')' ==> multiset(out)[ch] + multiset(stack)[ch] == multiset(src)[ch])
    && multiset(out)['('] + multiset(stack)['('] == Depth(src)
    && Operands(out) == Operands(src)
  }

  lemma EmitOperand(out: string, stack: string, src: string, c: char)
    requires Accounted(out, stack, src) && IsOperand(c)
    ensures Accounted(out + [c], stack, src + [c])
  {
    DepthStep(src, c);
    DepthStep(out, c);
    assert c != '(' && c != ')';
    forall ch | ch != '(' && ch != ')'
      ensures multiset(out + [c])[ch] + multiset(stack)[ch] == multiset(src + [c])[ch]
    {
    }
    assert ')' !in out + [c];
  }

  lemma PushOperator(out: string, stack: string, src: string, c: char)
    requires Accounted(out, stack, src) && !IsOperand(c) && c != ')'
    ensures Accounted(out, stack + [c], src + [c])
  {
    DepthStep(src, c);
    DepthStep(stack, c);
    assert multiset(out)['('] + multiset(stack + [c])['('] == Depth(src + [c]);
    assert Operands(out) == Operands(src + [c]);
  }

  lemma PopToOutput(out: string, stack: string, src: string)
    requires Accounted(out, stack, src) && |stack| > 0
    ensures Accounted(out + [stack[|stack| - 1]], stack[..|stack| - 1], src)
  {
    var top := stack[|stack| - 1];
    assert stack == stack[..|stack| - 1] + [top];
    DepthStep(out, top);
    DepthStep(stack[..|stack| - 1], top);
  }

  lemma DropOpen(out: string, stack: string, src: string)
    requires Accounted(out, stack, src) && |stack| > 0 && stack[|stack| - 1] == '('
    ensures Accounted(out, stack[..|stack| - 1], src + [')'])
  {
    assert stack == stack[..|stack| - 1] + ['('];
    DepthStep(src, ')');
    DepthStep(stack[..|stack| - 1], '(');
  }

  lemma AccountedDepth(out: string, stack: string, src: string)
    requires Accounted(out, stack, src)
    ensures Depth(src) >= 0
  {
  }

  /** With the stack emptied, the output keeps every operator of re, one '('
      per unclosed '(', no ')', and the operands in order. */
  lemma FlushedOutput(out: string, re: string)
    requires Accounted(out, "", re)
    ensures ')' !in out && multiset(out)['('] == Depth(re)
    ensures Depth(re) == 0 ==> '(' !in out
    ensures forall c :: c != '(' && c != ')' ==> multiset(out)[c] == multiset(re)[c]
    ensures Operands(out) == Operands(re)
  {
    assert multiset("")['('] == 0;
    forall c | c != '(' && c != ')'
      ensures multiset(out)[c] == multiset(re)[c]
    {
      assert multiset("")[c] == 0;
    }
  }

  /** Popping the stack down to k keeps every character accounted for. */
  lemma {:induction false} PopRun(out: string, stack: string, src: string, k: nat)
    requires Accounted(out, stack, src) && k <= |stack|
    ensures Accounted(out + Reverse(stack[k..]), stack[..k], src)
    decreases |stack| - k
  {
    if k < |stack| {
      PopRun(out, stack, src, k + 1);
      PopRunStep(out, stack, src, k);
    } else {
      assert stack[k..] == [];
      assert Reverse(stack[k..]) == [];
      assert out + Reverse(stack[k..]) == out && stack[..k] == stack;
    }
  }

  lemma PopRunStep(out: string, stack: string, src: string, k: nat)
    requires k < |stack| && Accounted(out + Reverse(stack[k + 1..]), stack[..k + 1], src)
    ensures Accounted(out + Reverse(stack[k..]), stack[..k], src)
  {
    var out1, stack1 := out + Reverse(stack[k + 1..]), stack[..k + 1];
    PopOne(out, stack, k + 1);
    assert stack1[|stack1| - 1] == stack[k];
    assert stack1[..|stack1| - 1] == stack[..k];
    assert out1 + [stack1[|stack1| - 1]] == out + Reverse(stack[k..]);
    PopToOutput(out1, stack1, src);
  }

  /** One character keeps every character accounted for, and fails exactly when
      it would close more parentheses than were opened. */
  lemma ShuntAccounted(out: string, stack: string, src: string, c: char)
    requires Accounted(out, stack, src) && '(' !in out
    ensures Shunt(out, stack, c).Some? <==> Depth(src + [c]) >= 0
    ensures Shunt(out, stack, c).Some? ==>
              Accounted(Shunt(out, stack, c).value.0, Shunt(out, stack, c).value.1, src + [c])
              && '(' !in Shunt(out, stack, c).value.0
  {
    var r := Shunt(out, stack, c);
    if IsOperand(c) {
      assert r == Some((out + [c], stack));
      DepthStep(src, c);
      AccountedDepth(out, stack, src);
      EmitOperand(out, stack, src, c);
    } else if c == '(' {
      assert r == Some((out, stack + [c]));
      DepthStep(src, c);
      AccountedDepth(out, stack, src);
      PushOperator(out, stack, src, c);
    } else if c == ')' {
      var k := OpenSplit(stack);
      CloseFails(out, stack, src);
      if k > 0 {
        assert r == Some((out + Reverse(stack[k..]), stack[..k - 1]));
        CloseKeeps(out, stack, src, k);
      }
    } else {
      var k := TighterSplit(stack, c);
      assert r == Some((out + Reverse(stack[k..]), stack[..k] + [c]));
      DepthStep(src, c);
      AccountedDepth(out, stack, src);
      OperatorAccounted(out, stack, src, c);
    }
  }

  lemma CloseFails(out: string, stack: string, src: string)
    requires Accounted(out, stack, src) && '(' !in out
    ensures OpenSplit(stack) == 0 <==> Depth(src + [')']) < 0
  {
    DepthStep(src, ')');
    AccountedDepth(out, stack, src);
    assert multiset(out)['('] == 0;
    assert OpenSplit(stack) == 0 <==> multiset(stack)['('] == 0;
  }

  lemma CloseKeeps(out: string, stack: string, src: string, k: nat)
    requires Accounted(out, stack, src) && '(' !in out
    requires 0 < k <= |stack| && PopsToOpen(stack, k)
    ensures Accounted(out + Reverse(stack[k..]), stack[..k - 1], src + [')']) && '(' !in out + Reverse(stack[k..])
  {
    PopRun(out, stack, src, k);
    var out1, stack1 := out + Reverse(stack[k..]), stack[..k];
    DropOpen(out1, stack1, src);
    assert stack1[..k - 1] == stack[..k - 1];
    assert '(' !in stack[k..];
    ReverseCounts(stack[k..]);
  }

  lemma OperatorAccounted(out: string, stack: string, src: string, c: char)
    requires Accounted(out, stack, src) && '(' !in out
    requires !IsOperand(c) && c != '(' && c != ')'
    ensures var k := TighterSplit(stack, c);
            Accounted(out + Reverse(stack[k..]), stack[..k] + [c], src + [c]) && '(' !in out + Reverse(stack[k..])
  {
    var k := TighterSplit(stack, c);
    PopRun(out, stack, src, k);
    PushOperator(out + Reverse(stack[k..]), stack[..k], src, c);
    assert '(' !in stack[k..];
    ReverseCounts(stack[k..]);
  }

  /** The conversion runs to the end exactly when re is well nested, and then
      every character is accounted for. */
  lemma {:induction false} ShuntAllNested(re: string)
    ensures ShuntAll(re).Some? <==> WellNested(re)
    ensures ShuntAll(re).Some? ==> Accounted(ShuntAll(re).value.0, ShuntAll(re).value.1, re) && '(' !in ShuntAll(re).value.0
  {
    if re != [] {
      var init, c := re[..|re| - 1], re[|re| - 1];
      ShuntAllNested(init);
      assert re == init + [c];
      NestedStep(init, c);
      if ShuntAll(init).Some? {
        ShuntAccounted(ShuntAll(init).value.0, ShuntAll(init).value.1, init, c);
      }
    } else {
      assert Operands("") == "";
    }
  }

  /** The postfix form exists exactly for well-nested input; it has no ')', one
      '(' per unclosed '(', every other character of the input and the operands
      in input order. */
  lemma PostfixFacts(re: string)
    ensures Postfix(re).Some? <==> WellNested(re)
    ensures Postfix(re).Some? ==> ')' !in Postfix(re).value && multiset(Postfix(re).value)['('] == Depth(re)
    ensures Postfix(re).Some? && Depth(re) == 0 ==> '(' !in Postfix(re).value
    ensures Postfix(re).Some? ==> forall c :: c != '(' && c != ')' ==> multiset(Postfix(re).value)[c] == multiset(re)[c]
    ensures Postfix(re).Some? ==> Operands(Postfix(re).value) == Operands(re)
  {
    ShuntAllNested(re);
    if ShuntAll(re).Some? {
      var out, stack := ShuntAll(re).value.0, ShuntAll(re).value.1;
      PopRun(out, stack, re, 0);
      assert stack[0..] == stack && stack[..0] == "";
      FlushedOutput(out + Reverse(stack), re);
    }
  }

  /** Adjacent operators on the stack not separated by '(' bind strictly more
      tightly going up: '*' above '.' above '+', and never two of one kind, so
      equal operators are applied left to right. */
  predicate StackOrdered(stack: string) {
    forall i :: 0 < i < |stack| && stack[i - 1] != '(' && stack[i] != '(' ==>
      PrecedenceOf(stack[i - 1]) < PrecedenceOf(stack[i])
  }

  lemma ShuntOrdered(out: string, stack: string, c: char)
    requires StackOrdered(stack) && Shunt(out, stack, c).Some?
    ensures StackOrdered(Shunt(out, stack, c).value.1)
  {
    if !IsOperand(c) && c != '(' && c != ')' {
      var k := TighterSplit(stack, c);
      var s := stack[..k] + [c];
      forall i | 0 < i < |s| && s[i - 1] != '(' && s[i] != '('
        ensures PrecedenceOf(s[i - 1]) < PrecedenceOf(s[i])
      {
        if i < k {
          assert s[i - 1] == stack[i - 1] && s[i] == stack[i];
        }
      }
    }
  }

  /** The operator stack stays ordered by precedence throughout the conversion. */
  lemma {:induction false} ShuntAllOrdered(re: string)
    requires ShuntAll(re).Some?
    ensures StackOrdered(ShuntAll(re).value.1)
  {
    if re != [] {
      ShuntAllOrdered(re[..|re| - 1]);
      ShuntOrdered(ShuntAll(re[..|re| - 1]).value.0, ShuntAll(re[..|re| - 1]).value.1, re[|re| - 1]);
    }
  }

  /** Reading one more character applies Shunt to what the prefix left. */
  lemma ShuntAllSnoc(p: string, c: char)
    ensures ShuntAll(p + [c]) == if ShuntAll(p).None? then None else Shunt(ShuntAll(p).value.0, ShuntAll(p).value.1, c)
  {
    assert (p + [c])[..|p|] == p;
  }

  /** An operator that pops nothing is pushed. */
  lemma ShuntPush(out: string, stack: string, c: char)
    requires !IsOperand(c) && c != '(' && c != ')' && TighterSplit(stack, c) == |stack|
    ensures Shunt(out, stack, c) == Some((out, stack + [c]))
  {
    assert stack[|stack|..] == [] && stack[..|stack|] == stack;
    assert Reverse([]) == [];
    assert out + [] == out;
  }

  /** One more character read after a run that succeeded. */
  lemma ShuntAllStep(p: string, c: char, before: (string, string), after: (string, string))
    requires ShuntAll(p) == Some(before) && Shunt(before.0, before.1, c) == Some(after)
    ensures ShuntAll(p + [c]) == Some(after)
  {
    ShuntAllSnoc(p, c);
  }

  /** The first character read starts from an empty output and stack. */
  lemma ShuntAllFirst(c: char, after: (string, string))
    requires Shunt([], [], c) == Some(after)
    ensures ShuntAll([c]) == Some(after)
  {
    ShuntAllSnoc([], c);
    assert [] + [c] == [c];
  }

  /** An operand goes straight to the output. */
  lemma ShuntOperand(out: string, stack: string, x: char)
    requires IsOperand(x)
    ensures Shunt(out, stack, x) == Some((out + [x], stack))
  {
  }

  /** '(' is pushed. */
  lemma ShuntOpen(out: string, stack: string)
    ensures Shunt(out, stack, '(') == Some((out, stack + ['(']))
  {
  }

  /** The postfix form of a run that succeeded. */
  lemma PostfixOf(re: string, out: string, stack: string)
    requires ShuntAll(re) == Some((out, stack))
    ensures Postfix(re) == Some(out + Reverse(stack))
  {
  }

  /** Reverse on stacks of one and two operators. */
  lemma ReverseShort(a: char, b: char)
    ensures Reverse([a]) == [a]
    ensures Reverse([a, b]) == [b, a]
  {
    assert [a, b][1..] == [b];
    assert [a][1..] == [];
  }

  /** After x+y: both operands are out and '+' waits on the stack. */
  lemma ShuntAllUnionPrefix(x: char, y: char)
    requires IsOperand(x) && IsOperand(y)
    ensures ShuntAll([x, '+', y]) == Some(([x, y], ['+']))
  {
    ShuntOperand([], [], x);
    assert [] + [x] == [x];
    ShuntAllFirst(x, ([x], []));
    ShuntPush([x], [], '+');
    assert [] + ['+'] == ['+'] && [x] + ['+'] == [x, '+'];
    ShuntAllStep([x], '+', ([x], []), ([x], ['+']));
    ShuntOperand([x], ['+'], y);
    assert [x] + [y] == [x, y] && [x, '+'] + [y] == [x, '+', y];
    ShuntAllStep([x, '+'], y, ([x], ['+']), ([x, y], ['+']));
  }

  /** After x+y.: '.' is pushed above the looser '+', which stays. */
  lemma ShuntAllConcatAfterUnion(x: char, y: char)
    requires IsOperand(x) && IsOperand(y)
    ensures ShuntAll([x, '+', y, '.']) == Some(([x, y], ['+', '.']))
  {
    ShuntAllUnionPrefix(x, y);
    assert TighterSplit(['+'], '.') == 1;
    ShuntPush([x, y], ['+'], '.');
    assert ['+'] + ['.'] == ['+', '.'] && [x, '+', y] + ['.'] == [x, '+', y, '.'];
    ShuntAllStep([x, '+', y], '.', ([x, y], ['+']), ([x, y], ['+', '.']));
  }

  /** '.' binds more tightly than '+': x+y.z is x+(y.z). */
  lemma PostfixConcatBeforeUnion(x: char, y: char, z: char)
    requires IsOperand(x) && IsOperand(y) && IsOperand(z)
    ensures Postfix([x, '+', y, '.', z]) == Some([x, y, z, '.', '+'])
  {
    ShuntAllConcatAfterUnion(x, y);
    ShuntOperand([x, y], ['+', '.'], z);
    assert [x, y] + [z] == [x, y, z] && [x, '+', y, '.'] + [z] == [x, '+', y, '.', z];
    ShuntAllStep([x, '+', y, '.'], z, ([x, y], ['+', '.']), ([x, y, z], ['+', '.']));
    PostfixOf([x, '+', y, '.', z], [x, y, z], ['+', '.']);
    ReverseShort('+', '.');
    assert [x, y, z] + ['.', '+'] == [x, y, z, '.', '+'];
  }

  /** An operator pops a lone operator binding at least as tightly. */
  lemma ShuntPopOne(out: string, t: char, c: char)
    requires !IsOperand(c) && c != '(' && c != ')'
    requires t != '(' && PrecedenceOf(t) >= PrecedenceOf(c)
    ensures Shunt(out, [t], c) == Some((out + [t], [c]))
  {
    assert [t][..0] == [] && [t][0..] == [t];
    assert TighterSplit([t], c) == 0;
    assert [t][..0] + [c] == [c];
    assert Reverse([t]) == [t];
  }

  /** After x+y+: the second '+' pops the first before it is pushed. */
  lemma ShuntAllUnionAfterUnion(x: char, y: char)
    requires IsOperand(x) && IsOperand(y)
    ensures ShuntAll([x, '+', y, '+']) == Some(([x, y, '+'], ['+']))
  {
    ShuntAllUnionPrefix(x, y);
    ShuntPopOne([x, y], '+', '+');
    assert [x, y] + ['+'] == [x, y, '+'] && [x, '+', y] + ['+'] == [x, '+', y, '+'];
    ShuntAllStep([x, '+', y], '+', ([x, y], ['+']), ([x, y, '+'], ['+']));
  }

  /** Equal operators associate to the left: x+y+z is (x+y)+z. */
  lemma PostfixLeftAssociative(x: char, y: char, z: char)
    requires IsOperand(x) && IsOperand(y) && IsOperand(z)
    ensures Postfix([x, '+', y, '+', z]) == Some([x, y, '+', z, '+'])
  {
    ShuntAllUnionAfterUnion(x, y);
    ShuntOperand([x, y, '+'], ['+'], z);
    assert [x, y, '+'] + [z] == [x, y, '+', z] && [x, '+', y, '+'] + [z] == [x, '+', y, '+', z];
    ShuntAllStep([x, '+', y, '+'], z, ([x, y, '+'], ['+']), ([x, y, '+', z], ['+']));
    PostfixOf([x, '+', y, '+', z], [x, y, '+', z], ['+']);
    ReverseShort('+', '+');
    assert [x, y, '+', z] + ['+'] == [x, y, '+', z, '+'];
  }

  /** A ')' pops what is above its '(' and drops the '('. */
  lemma ShuntCloseOne(out: string, t: char)
    requires t != '('
    ensures Shunt(out, ['(', t], ')') == Some((out + [t], []))
  {
    var st := ['(', t];
    assert st[..1] == ['('];
    assert OpenSplit(st) == 1;
    assert st[1..] == [t] && st[..0] == [];
    assert Reverse([t]) == [t];
  }

  /** After (x+: x is out and '+' waits above the '('. */
  lemma ShuntAllOpenPrefix(x: char)
    requires IsOperand(x)
    ensures ShuntAll(['(', x, '+']) == Some(([x], ['(', '+']))
  {
    ShuntOpen([], []);
    assert [] + ['('] == ['('];
    ShuntAllFirst('(', ([], ['(']));
    ShuntOperand([], ['('], x);
    assert [] + [x] == [x] && ['('] + [x] == ['(', x];
    ShuntAllStep(['('], x, ([], ['(']), ([x], ['(']));
    assert TighterSplit(['('], '+') == 1;
    ShuntPush([x], ['('], '+');
    assert ['('] + ['+'] == ['(', '+'] && ['(', x] + ['+'] == ['(', x, '+'];
    ShuntAllStep(['(', x], '+', ([x], ['(']), ([x], ['(', '+']));
  }

  /** After (x+y): the group has been emitted and the stack is empty again. */
  lemma ShuntAllGroup(x: char, y: char)
    requires IsOperand(x) && IsOperand(y)
    ensures ShuntAll(['(', x, '+', y, ')']) == Some(([x, y, '+'], []))
  {
    ShuntAllOpenPrefix(x);
    ShuntOperand([x], ['(', '+'], y);
    assert [x] + [y] == [x, y] && ['(', x, '+'] + [y] == ['(', x, '+', y];
    ShuntAllStep(['(', x, '+'], y, ([x], ['(', '+']), ([x, y], ['(', '+']));
    ShuntCloseOne([x, y], '+');
    assert [x, y] + ['+'] == [x, y, '+'] && ['(', x, '+', y] + [')'] == ['(', x, '+', y, ')'];
    ShuntAllStep(['(', x, '+', y], ')', ([x, y], ['(', '+']), ([x, y, '+'], []));
  }

  /** Parentheses override precedence: (x+y).z applies '+' first. */
  lemma PostfixParenthesised(x: char, y: char, z: char)
    requires IsOperand(x) && IsOperand(y) && IsOperand(z)
    ensures Postfix(['(', x, '+', y, ')', '.', z]) == Some([x, y, '+', z, '.'])
  {
    var g := ['(', x, '+', y, ')'];
    ShuntAllGroup(x, y);
    ShuntPush([x, y, '+'], [], '.');
    assert [] + ['.'] == ['.'];
    ShuntAllStep(g, '.', ([x, y, '+'], []), ([x, y, '+'], ['.']));
    ShuntOperand([x, y, '+'], ['.'], z);
    assert [x, y, '+'] + [z] == [x, y, '+', z];
    ShuntAllStep(g + ['.'], z, ([x, y, '+'], ['.']), ([x, y, '+', z], ['.']));
    assert g + ['.'] + [z] == ['(', x, '+', y, ')', '.', z];
    PostfixOf(['(', x, '+', y, ')', '.', z], [x, y, '+', z], ['.']);
    ReverseShort('.', '.');
    assert [x, y, '+', z] + ['.'] == [x, y, '+', z, '.'];
  }

  /** A ')' read with an empty stack fails. */
  lemma ShuntCloseEmpty(out: string)
    ensures Shunt(out, [], ')') == None
  {
    assert OpenSplit([]) == 0;
  }

  /** A ')' with no '(' before it stops the conversion. */
  lemma PostfixUnmatchedClose(x: char)
    requires IsOperand(x)
    ensures Postfix([x, ')']) == None
  {
    ShuntOperand([], [], x);
    assert [] + [x] == [x];
    ShuntAllFirst(x, ([x], []));
    ShuntCloseEmpty([x]);
    ShuntAllSnoc([x], ')');
    assert [x] + [')'] == [x, ')'];
  }

  // ---------------------------------------------------------------------------
  // Shunting-yard conversion, as the source's loops

  /** Pops operators to the output until the top of the stack is '(' or the
      stack is empty (the loop for ')'). */
  method PopToOpen(out: string, stack: string) returns (out': string, stack': string)
    ensures PopsToOpen(stack, |stack'|) && |stack'| == OpenSplit(stack)
    ensures stack' == stack[..|stack'|] && out' == out + Reverse(stack[|stack'|..])
  {
    out', stack' := out, stack;
    assert stack[|stack|..] == [] && stack[..|stack|] == stack;
    while |stack'| > 0 && stack'[|stack'| - 1] != '('
      invariant |stack'| <= |stack| && stack' == stack[..|stack'|] && out' == out + Reverse(stack[|stack'|..])
      invariant OpenSplit(stack') == OpenSplit(stack)
    {
      var k := |stack'|;
      var top := stack'[k - 1];
      assert top == stack[k - 1] && stack'[..k - 1] == stack[..k - 1];
      PopOne(out, stack, k);
      out' := out' + [top];
      stack' := stack[..k - 1];
    }
  }

  /** Pops the operators that bind at least as tightly as c (the loop for an
      operator). */
  method PopTighter(out: string, stack: string, c: char) returns (out': string, stack': string)
    ensures PopsTighter(stack, |stack'|, c) && |stack'| == TighterSplit(stack, c)
    ensures stack' == stack[..|stack'|] && out' == out + Reverse(stack[|stack'|..])
  {
    out', stack' := out, stack;
    assert stack[|stack|..] == [] && stack[..|stack|] == stack;
    while |stack'| > 0 && stack'[|stack'| - 1] != '(' && PrecedenceOf(stack'[|stack'| - 1]) >= PrecedenceOf(c)
      invariant |stack'| <= |stack| && stack' == stack[..|stack'|] && out' == out + Reverse(stack[|stack'|..])
      invariant TighterSplit(stack', c) == TighterSplit(stack, c)
    {
      var k := |stack'|;
      var top := stack'[k - 1];
      assert top == stack[k - 1] && stack'[..k - 1] == stack[..k - 1];
      assert TighterSplit(stack[..k - 1], c) == TighterSplit(stack', c);
      PopOne(out, stack, k);
      out' := out' + [top];
      stack' := stack[..k - 1];
    }
    assert TighterSplit(stack', c) == |stack'|;
  }

  /** One step of the conversion: does what Shunt describes, and reports false
      exactly for a ')' with no '(' on the stack, where the source peeks at an
      empty stack. */
  method ReadChar(c: char, out: string, stack: string) returns (ok: bool, out': string, stack': string)
    ensures ok <==> Shunt(out, stack, c).Some?
    ensures ok ==> Shunt(out, stack, c) == Some((out', stack'))
  {
    ok := true;
    if IsOperand(c) {
      out', stack' := out + [c], stack;
    } else if c == '(' {
      out', stack' := out, stack + [c];
    } else if c == ')' {
      out', stack' := PopToOpen(out, stack);
      if |stack'| == 0 {
        ok := false;
        return;
      }
      assert stack'[..|stack'| - 1] == stack[..|stack'| - 1];
      stack' := stack'[..|stack'| - 1];
    } else {
      out', stack' := PopTighter(out, stack, c);
      stack' := stack' + [c];
    }
  }

  /** Pops what is left on the stack to the output. */
  method Flush(out: string, stack: string) returns (out': string)
    ensures out' == out + Reverse(stack)
  {
    out' := out;
    var st := stack;
    assert stack[|stack|..] == [] && stack[..|stack|] == stack;
    while |st| > 0
      invariant |st| <= |stack| && st == stack[..|st|] && out' == out + Reverse(stack[|st|..])
    {
      PopOne(out, stack, |st|);
      out' := out' + [st[|st| - 1]];
      st := st[..|st| - 1];
    }
    assert stack[0..] == stack;
  }

  /** The main loop of the conversion: reads re character by character, and
      stops at an unmatched ')'. */
  method Scan(re: string) returns (ok: bool, out: string, stack: string)
    ensures ok <==> ShuntAll(re).Some?
    ensures ok ==> ShuntAll(re) == Some((out, stack))
  {
    out, stack := "", "";
    ghost var src: string := "";
    for i := 0 to |re|
      invariant src == re[..i]
      invariant ShuntAll(src) == Some((out, stack))
    {
      var c := re[i];
      ok, out, stack := ReadChar(c, out, stack);
      PrefixSnoc(re, i + 1);
      assert (src + [c])[..i] == src;
      if !ok {
        ShuntAllStuck(re, i + 1);
        return;
      }
      src := src + [c];
    }
    assert re[..|re|] == re;
    ok := true;
  }

  /** infix_to_posfix_re: the postfix form, or UnmatchedClose exactly when re is
      not well nested. */
  method InfixToPostfix(re: string) returns (r: Result<string, ParseError>)
    ensures r.Success? ==> Postfix(re) == Some(r.value)
    ensures r.Failure? ==> Postfix(re).None?
    ensures r.Failure? <==> !WellNested(re)
    ensures r.Success? ==> ')' !in r.value && multiset(r.value)['('] == Depth(re)
    ensures r.Success? && Depth(re) == 0 ==> '(' !in r.value
    ensures r.Success? ==> forall c :: c != '(' && c != ')' ==> multiset(r.value)[c] == multiset(re)[c]
    ensures r.Success? ==> Operands(r.value) == Operands(re)
  {
    PostfixFacts(re);
    var ok, out, stack := Scan(re);
    if !ok {
      return Failure(UnmatchedClose);
    }
    out := Flush(out, stack);
    r := Success(out);
  }
}
