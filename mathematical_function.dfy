/*
 * mathematical_functon<T> (include/qpl/maths.hpp:109-268): a chain of cells
 * evaluated left to right. A cell whose operator is `none` ends a line; each
 * line folds its operands into the line's first slot of a working copy, and the
 * value of the line that ends at the last cell is returned.
 *
 * T is modelled as `real`; std::pow is a parameter.
 */
module MathematicalFunctions {
  import opened NumberOperations

  /**
   * The ways `solve` can fail to produce a value. In the source each of them is
   * undefined behaviour: `size() - 1` wraps for an empty chain, control falls off
   * the end of a value-returning function, and an index outside the working copy
   * or the variables is read.
   */
  datatype EvalError = EmptyChain | FallsOffEnd | LinkOutOfRange | VariableOutOfRange

  datatype Result<T> = Ok(value: T) | Err(error: EvalError) {
    predicate IsFailure() { Err? }
    function PropagateFailure<U>(): Result<U>
      requires Err?
    {
      Err(error)
    }
    function Extract(): T
      requires Ok?
    {
      value
    }
  }

  /** The prefix applied to a resolved operand; `positive` leaves it as it is. */
  function ApplyPrefix(p: Prefix, x: real): (y: real)
    ensures p == Negated ==> y == -x
    ensures p != Negated ==> y == x
  {
    if p == Negated then -x else x
  }

  /** One arm of the operator switch. Division by zero gives 0; `none` keeps the accumulator. */
  function Apply(op: Operation, acc: real, right: real, pow: (real, real) -> real): (r: real)
    ensures op == None ==> r == acc
    ensures op == Div && right == 0.0 ==> r == 0.0
  {
    match op
    case None => acc
    case Add => acc + right
    case Sub => acc - right
    case Mul => acc * right
    case Div => if right == 0.0 then 0.0 else acc / right
    case Pow => pow(acc, right)
  }

  /** The working copy with slot k's payload replaced. */
  function WithNumber(w: seq<Record>, k: nat, x: real): seq<Record>
    requires k < |w|
  {
    w[k := w[k].(number := x)]
  }

  /**
   * Cell j read as an operand of the working copy w: a link reads the payload of
   * the slot it names, a variable reads the variable it names, any other cell its
   * own payload; then the cell's prefix is applied.
   */
  function Operand(w: seq<Record>, vars: seq<real>, j: nat): (r: Result<real>)
    requires j < |w|
    ensures r.Err? ==> (w[j].isLink && r.error == LinkOutOfRange) || (w[j].isVariable && r.error == VariableOutOfRange)
  {
    match KindOf(w[j])
    case Link(k) => if 0 <= k < |w| then Ok(ApplyPrefix(w[j].prefix, w[k].number)) else Err(LinkOutOfRange)
    case Variable(k) => if 0 <= k < |vars| then Ok(ApplyPrefix(w[j].prefix, vars[k])) else Err(VariableOutOfRange)
    case Literal => Ok(ApplyPrefix(w[j].prefix, w[j].number))
  }

  /* ---------------------------------------------------------------------------
   * solve, step for step: `Reduce(w, i, c)` is one turn of the inner loop with
   * outer index i and inner index c; `Continue(w, i)` is the outer loop's `++i`.
   * ------------------------------------------------------------------------- */

  function Reduce(w: seq<Record>, vars: seq<real>, pow: (real, real) -> real, i: nat, c: nat): Result<real>
    requires i <= c < |w| - 1
    decreases |w| - i, |w| - c
  {
    var start :- if i == c then Operand(w, vars, i) else Ok(w[i].number);
    var w1 := WithNumber(w, i, start);
    var right :- Operand(w1, vars, c + 1);
    var w2 := WithNumber(w1, i, Apply(w[c].op, start, right, pow));
    if w[c + 1].op == None then
      if c == |w| - 2 then Ok(w2[i].number) else Continue(w2, vars, pow, c + 1)
    else if c + 1 < |w| - 1 then Reduce(w2, vars, pow, i, c + 1)
    else Continue(w2, vars, pow, i)
  }

  function Continue(w: seq<Record>, vars: seq<real>, pow: (real, real) -> real, i: nat): Result<real>
    requires i < |w|
    decreases |w| - i, 0
  {
    if i + 1 < |w| - 1 then Reduce(w, vars, pow, i + 1, i + 1) else Err(FallsOffEnd)
  }

  /** The value `solve` returns for `chain` and `vars`. */
  function Eval(chain: seq<Record>, vars: seq<real>, pow: (real, real) -> real): Result<real>
  {
    if |chain| == 0 then Err(EmptyChain)
    else if |chain| == 1 then Err(FallsOffEnd)
    else Reduce(chain, vars, pow, 0, 0)
  }

  /** One turn of the inner loop once both operands are known. */
  lemma ReduceOnce(w: seq<Record>, vars: seq<real>, pow: (real, real) -> real, i: nat, c: nat, start: real, right: real)
    requires i <= c < |w| - 1
    requires i == c ==> Operand(w, vars, i) == Ok(start)
    requires i != c ==> start == w[i].number
    requires Operand(if i == c then WithNumber(w, i, start) else w, vars, c + 1) == Ok(right)
    ensures var w2 := WithNumber(w, i, Apply(w[c].op, start, right, pow));
            Reduce(w, vars, pow, i, c) ==
              if w[c + 1].op == None then
                (if c == |w| - 2 then Ok(w2[i].number) else Continue(w2, vars, pow, c + 1))
              else if c + 1 < |w| - 1 then Reduce(w2, vars, pow, i, c + 1)
              else Continue(w2, vars, pow, i)
  {
    if i != c {
      assert WithNumber(w, i, start) == w;
    }
    OverwriteTwice(w, i, start, Apply(w[c].op, start, right, pow));
  }

  /* ---------------------------------------------------------------------------
   * The same evaluation stated line by line.
   * ------------------------------------------------------------------------- */

  /** The first index at or after j whose operator is `none`, or |w| when there is none. */
  function FirstNoneFrom(w: seq<Record>, j: nat): (e: nat)
    requires j <= |w|
    ensures j <= e <= |w|
    ensures e < |w| ==> w[e].op == None
    ensures forall k :: j <= k < e ==> w[k].op != None
    decreases |w| - j
  {
    if j == |w| then j else if w[j].op == None then j else FirstNoneFrom(w, j + 1)
  }

  /**
   * The line starting at s folded up to cell j: operands are combined from left to
   * right, each with the operator of the cell before it, and a link to slot s reads
   * the running value.
   */
  function FoldLine(w: seq<Record>, vars: seq<real>, pow: (real, real) -> real, s: nat, j: nat): Result<real>
    requires s <= j < |w|
    decreases j - s
  {
    if j == s then Operand(w, vars, s)
    else
      var acc :- FoldLine(w, vars, pow, s, j - 1);
      var right :- Operand(WithNumber(w, s, acc), vars, j);
      Ok(Apply(w[j - 1].op, acc, right, pow))
  }

  /**
   * Lines from s onward: each line runs up to the next `none` cell and leaves its
   * value in its first slot; the line ending at the last cell gives the result.
   */
  function Lines(w: seq<Record>, vars: seq<real>, pow: (real, real) -> real, s: nat): Result<real>
    requires s < |w| - 1
    decreases |w| - s
  {
    var e := FirstNoneFrom(w, s + 1);
    if e == |w| then Err(FallsOffEnd)
    else
      var v :- FoldLine(w, vars, pow, s, e);
      if e == |w| - 1 then Ok(v)
      else if e + 1 < |w| - 1 then Lines(WithNumber(w, s, v), vars, pow, e + 1)
      else Err(FallsOffEnd)
  }

  function Reference(chain: seq<Record>, vars: seq<real>, pow: (real, real) -> real): Result<real>
  {
    if |chain| == 0 then Err(EmptyChain)
    else if |chain| == 1 then Err(FallsOffEnd)
    else Lines(chain, vars, pow, 0)
  }

  /* ---------------------------------------------------------------------------
   * The two agree.
   * ------------------------------------------------------------------------- */

  lemma OverwriteTwice(w: seq<Record>, k: nat, x: real, y: real)
    requires k < |w|
    ensures WithNumber(WithNumber(w, k, x), k, y) == WithNumber(w, k, y)
  {
  }

  /** Once a line's fold fails, folding further along the line fails the same way. */
  lemma {:induction false} FoldLineFailureSticks(w: seq<Record>, vars: seq<real>, pow: (real, real) -> real, s: nat, j: nat, k: nat)
    requires s <= j <= k < |w|
    requires FoldLine(w, vars, pow, s, j).Err?
    ensures FoldLine(w, vars, pow, s, k) == FoldLine(w, vars, pow, s, j)
    decreases k - j
  {
    if j < k {
      FoldLineFailureSticks(w, vars, pow, s, j, k - 1);
    }
  }

  /** What the rest of a line's evaluation comes to once the line's end e is known. */
  function LineTail(w: seq<Record>, vars: seq<real>, pow: (real, real) -> real, s: nat, e: nat): Result<real>
    requires s < e <= |w|
  {
    if e < |w| then
      var v :- FoldLine(w, vars, pow, s, e);
      if e == |w| - 1 then Ok(v) else Continue(WithNumber(w, s, v), vars, pow, e)
    else
      var v :- FoldLine(w, vars, pow, s, |w| - 1);
      Continue(WithNumber(w, s, v), vars, pow, s)
  }

  /**
   * The inner loop at (s, c), with slot s holding the line folded up to c, comes to
   * the line's tail.
   */
  lemma {:induction false} ReduceWalksLine(w: seq<Record>, vars: seq<real>, pow: (real, real) -> real, s: nat, c: nat, x: real)
    requires s <= c < |w| - 1
    requires forall k :: s < k <= c ==> w[k].op != None
    requires s < c ==> FoldLine(w, vars, pow, s, c) == Ok(x)
    ensures Reduce(if s == c then w else WithNumber(w, s, x), vars, pow, s, c)
         == LineTail(w, vars, pow, s, FirstNoneFrom(w, c + 1))
    decreases |w| - c, 1
  {
    if FoldLine(w, vars, pow, s, c + 1).Err? {
      WalkFails(w, vars, pow, s, c, x);
    } else {
      WalkStep(w, vars, pow, s, c, x);
    }
  }

  /** ReduceWalksLine when the line's fold fails by cell c + 1: both sides give that failure. */
  lemma WalkFails(w: seq<Record>, vars: seq<real>, pow: (real, real) -> real, s: nat, c: nat, x: real)
    requires s <= c < |w| - 1
    requires forall k :: s < k <= c ==> w[k].op != None
    requires s < c ==> FoldLine(w, vars, pow, s, c) == Ok(x)
    requires FoldLine(w, vars, pow, s, c + 1).Err?
    ensures Reduce(if s == c then w else WithNumber(w, s, x), vars, pow, s, c)
         == LineTail(w, vars, pow, s, FirstNoneFrom(w, c + 1))
  {
    var w0 := if s == c then w else WithNumber(w, s, x);
    var e := FirstNoneFrom(w, c + 1);
    var last := if e < |w| then e else |w| - 1;
    var failure := FoldLine(w, vars, pow, s, c + 1);
    FoldLineFailureSticks(w, vars, pow, s, c + 1, last);
    assert LineTail(w, vars, pow, s, e) == Err(failure.error);
    var start := if s == c then Operand(w0, vars, s) else Ok(w0[s].number);
    assert start == FoldLine(w, vars, pow, s, c);
    if start.Err? {
      assert failure == start;
    } else {
      assert WithNumber(w0, s, start.value) == WithNumber(w, s, start.value);
    }
  }

  /** ReduceWalksLine when the line's fold reaches cell c + 1: one turn of the inner loop. */
  lemma {:induction false} WalkStep(w: seq<Record>, vars: seq<real>, pow: (real, real) -> real, s: nat, c: nat, x: real)
    requires s <= c < |w| - 1
    requires forall k :: s < k <= c ==> w[k].op != None
    requires s < c ==> FoldLine(w, vars, pow, s, c) == Ok(x)
    requires FoldLine(w, vars, pow, s, c + 1).Ok?
    ensures Reduce(if s == c then w else WithNumber(w, s, x), vars, pow, s, c)
         == LineTail(w, vars, pow, s, FirstNoneFrom(w, c + 1))
    decreases |w| - c, 0
  {
    var w0 := if s == c then w else WithNumber(w, s, x);
    var e := FirstNoneFrom(w, c + 1);
    var start := FoldLine(w, vars, pow, s, c);
    assert start == if s == c then Operand(w0, vars, s) else Ok(w0[s].number);
    var w1 := WithNumber(w, s, start.value);
    assert WithNumber(w0, s, start.value) == w1;
    var right := Operand(w1, vars, c + 1);
    var y := Apply(w[c].op, start.value, right.value, pow);
    assert FoldLine(w, vars, pow, s, c + 1) == Ok(y);
    var w2 := WithNumber(w, s, y);
    OverwriteTwice(w, s, start.value, y);
    if s != c {
      OverwriteTwice(w, s, x, y);
    }
    ReduceOnce(w0, vars, pow, s, c, start.value, right.value);
    if w[c + 1].op != None && c + 1 < |w| - 1 {
      ReduceWalksLine(w, vars, pow, s, c + 1, y);
    }
  }

  /** A line that never reaches a `none` cell fails, and so does every later start. */
  lemma {:induction false} UnterminatedReduceFails(w: seq<Record>, vars: seq<real>, pow: (real, real) -> real, i: nat, c: nat)
    requires i <= c < |w| - 1
    requires forall k :: i < k < |w| ==> w[k].op != None
    ensures Reduce(w, vars, pow, i, c).Err?
    decreases |w| - i, |w| - c
  {
    var start := if i == c then Operand(w, vars, i) else Ok(w[i].number);
    if start.Ok? {
      var w1 := WithNumber(w, i, start.value);
      var right := Operand(w1, vars, c + 1);
      if right.Ok? {
        var w2 := WithNumber(w1, i, Apply(w[c].op, start.value, right.value, pow));
        if c + 1 < |w| - 1 {
          UnterminatedReduceFails(w2, vars, pow, i, c + 1);
        } else {
          UnterminatedContinueFails(w2, vars, pow, i);
        }
      }
    }
  }

  lemma {:induction false} UnterminatedContinueFails(w: seq<Record>, vars: seq<real>, pow: (real, real) -> real, i: nat)
    requires i < |w|
    requires forall k :: i < k < |w| ==> w[k].op != None
    ensures Continue(w, vars, pow, i).Err?
    decreases |w| - i, 0
  {
    if i + 1 < |w| - 1 {
      UnterminatedReduceFails(w, vars, pow, i + 1, i + 1);
    }
  }

  /** From a line start, the loop and the line-by-line reading agree whenever either yields a value. */
  lemma {:induction false} ReduceMatchesLines(w: seq<Record>, vars: seq<real>, pow: (real, real) -> real, s: nat)
    requires s < |w| - 1
    ensures Reduce(w, vars, pow, s, s).Ok? || Lines(w, vars, pow, s).Ok?
        ==> Reduce(w, vars, pow, s, s) == Lines(w, vars, pow, s)
    decreases |w| - s
  {
    var e := FirstNoneFrom(w, s + 1);
    ReduceWalksLine(w, vars, pow, s, s, 0.0);
    assert Reduce(w, vars, pow, s, s) == LineTail(w, vars, pow, s, e);
    if e == |w| {
      assert Lines(w, vars, pow, s) == Err(FallsOffEnd);
      var v := FoldLine(w, vars, pow, s, |w| - 1);
      if v.Ok? {
        UnterminatedContinueFails(WithNumber(w, s, v.value), vars, pow, s);
      }
    } else {
      var v := FoldLine(w, vars, pow, s, e);
      if v.Err? {
        assert LineTail(w, vars, pow, s, e) == Err(v.error);
        assert Lines(w, vars, pow, s) == Err(v.error);
      } else if e == |w| - 1 {
        assert LineTail(w, vars, pow, s, e) == Ok(v.value);
        assert Lines(w, vars, pow, s) == Ok(v.value);
      } else if e + 1 < |w| - 1 {
        var w1 := WithNumber(w, s, v.value);
        assert LineTail(w, vars, pow, s, e) == Reduce(w1, vars, pow, e + 1, e + 1);
        assert Lines(w, vars, pow, s) == Lines(w1, vars, pow, e + 1);
        ReduceMatchesLines(w1, vars, pow, e + 1);
      } else {
        assert LineTail(w, vars, pow, s, e) == Err(FallsOffEnd);
        assert Lines(w, vars, pow, s) == Err(FallsOffEnd);
      }
    }
  }

  /** `solve` computes the line-by-line value: whenever either side yields a value, both are equal. */
  lemma EvalMatchesReference(chain: seq<Record>, vars: seq<real>, pow: (real, real) -> real)
    ensures Eval(chain, vars, pow).Ok? || Reference(chain, vars, pow).Ok?
        ==> Eval(chain, vars, pow) == Reference(chain, vars, pow)
  {
    if |chain| >= 2 {
      ReduceMatchesLines(chain, vars, pow, 0);
    }
  }

  /* ---------------------------------------------------------------------------
   * Consequences.
   * ------------------------------------------------------------------------- */

  lemma {:induction false} LinesEndWithNone(w: seq<Record>, vars: seq<real>, pow: (real, real) -> real, s: nat)
    requires s < |w| - 1
    requires Lines(w, vars, pow, s).Ok?
    ensures w[|w| - 1].op == None
    decreases |w| - s
  {
    var e := FirstNoneFrom(w, s + 1);
    if e < |w| - 1 {
      var v := FoldLine(w, vars, pow, s, e);
      var w1 := WithNumber(w, s, v.value);
      assert Lines(w, vars, pow, s) == Lines(w1, vars, pow, e + 1);
      LinesEndWithNone(w1, vars, pow, e + 1);
    }
  }

  /** A chain yields a value only if it has two cells or more and its last cell ends a line. */
  lemma ValueNeedsTerminator(chain: seq<Record>, vars: seq<real>, pow: (real, real) -> real)
    requires Eval(chain, vars, pow).Ok?
    ensures |chain| >= 2 && chain[|chain| - 1].op == None
  {
    EvalMatchesReference(chain, vars, pow);
    LinesEndWithNone(chain, vars, pow, 0);
  }

  /** The chain with every payload cleared: what `solve` never writes (operators, prefixes, flags). */
  function Skeleton(w: seq<Record>): (r: seq<Record>)
    ensures |r| == |w|
  {
    if w == [] then [] else [w[0].(number := 0.0)] + Skeleton(w[1..])
  }

  /** Writing a payload leaves the skeleton as it was. */
  lemma {:induction false} WritingKeepsSkeleton(w: seq<Record>, k: nat, x: real)
    requires k < |w|
    ensures Skeleton(WithNumber(w, k, x)) == Skeleton(w)
  {
    if k > 0 {
      assert WithNumber(w, k, x)[1..] == WithNumber(w[1..], k - 1, x);
      WritingKeepsSkeleton(w[1..], k - 1, x);
    } else {
      assert WithNumber(w, k, x)[1..] == w[1..];
    }
  }

  /* ---------------------------------------------------------------------------
   * Examples.
   * ------------------------------------------------------------------------- */

  function Lit(x: real, op: Operation): Record { Record(x, op, NoPrefix, false, false) }
  function Var(k: nat, op: Operation): Record { Record(k as real, op, NoPrefix, false, true) }
  function LinkTo(k: nat, op: Operation): Record { Record(k as real, op, NoPrefix, true, false) }

  /** 2 + 3 * 4 is evaluated left to right: (2 + 3) * 4. */
  lemma LeftToRight(pow: (real, real) -> real)
    ensures Eval([Lit(2.0, Add), Lit(3.0, Mul), Lit(4.0, None)], [], pow) == Ok(20.0)
  {
  }

  /** Dividing by zero yields 0. */
  lemma DivisionByZero(pow: (real, real) -> real)
    ensures Eval([Lit(4.0, Div), Lit(0.0, None)], [], pow) == Ok(0.0)
  {
  }

  /** Variables are read by index; a negated prefix negates the operand. */
  lemma VariablesAndPrefix(pow: (real, real) -> real)
    ensures Eval([Var(0, Sub), Record(1.0, None, Negated, false, true)], [5.0, 7.0], pow) == Ok(12.0)
  {
  }

  /** Only the line ending at the last cell gives the value. */
  lemma LastLineCounts(pow: (real, real) -> real)
    ensures Eval([Lit(5.0, Add), Lit(1.0, None), Lit(7.0, Sub), Lit(1.0, None)], [], pow) == Ok(6.0)
  {
    var w := [Lit(5.0, Add), Lit(1.0, None), Lit(7.0, Sub), Lit(1.0, None)];
    var w2 := WithNumber(w, 0, 6.0);
    assert Reduce(w2, [], pow, 2, 2) == Ok(6.0);
    assert Reduce(w, [], pow, 0, 0) == Continue(w2, [], pow, 1);
  }

  /** A link to an earlier line's first slot reads that line's value. */
  lemma LinkReadsEarlierLine(pow: (real, real) -> real)
    ensures Eval([Lit(2.0, Add), Lit(3.0, Mul), Lit(4.0, None), LinkTo(0, Add), Lit(1.0, None)], [], pow) == Ok(21.0)
  {
    var w := [Lit(2.0, Add), Lit(3.0, Mul), Lit(4.0, None), LinkTo(0, Add), Lit(1.0, None)];
    var w1 := WithNumber(WithNumber(w, 0, 2.0), 0, 5.0);
    assert Reduce(w, [], pow, 0, 0) == Reduce(w1, [], pow, 0, 1);
    var w2 := WithNumber(WithNumber(w1, 0, 5.0), 0, 20.0);
    assert Reduce(w1, [], pow, 0, 1) == Continue(w2, [], pow, 2);
    assert w2[0].number == 20.0;
    assert Reduce(w2, [], pow, 3, 3) == Ok(21.0);
  }

  /** A line of one cell at the end of the chain is never evaluated. */
  lemma SingleCellLastLine(pow: (real, real) -> real)
    ensures Eval([Lit(5.0, Add), Lit(1.0, None), Lit(7.0, None)], [], pow) == Err(FallsOffEnd)
  {
  }

  /** A variable index beyond the variables supplied. */
  lemma MissingVariable(pow: (real, real) -> real)
    ensures Eval([Var(2, Add), Lit(1.0, None)], [5.0], pow) == Err(VariableOutOfRange)
  {
  }

  /* ---------------------------------------------------------------------------
   * The object.
   * ------------------------------------------------------------------------- */

  /** Text of a chain: every cell followed by a space, and a line break after each `none` cell. */
  function ChainText(chain: seq<Record>, showNumber: real -> string, opName: Operation -> string): string
    requires forall k :: 0 <= k < |chain| ==> IndexRepresentable(chain[k])
  {
    if chain == [] then "" else CellText(chain[0], showNumber, opName) + ChainText(chain[1..], showNumber, opName)
  }

  /** One cell's part of the text: the cell, a space, and a line break after a `none` cell. */
  function CellText(r: Record, showNumber: real -> string, opName: Operation -> string): string
    requires IndexRepresentable(r)
  {
    RecordString(r, showNumber, opName) + " " + (if r.op == None then "\n" else "")
  }

  /** The text of two chains put together is the two texts put together. */
  lemma {:induction false} ChainTextAppend(a: seq<Record>, b: seq<Record>, showNumber: real -> string, opName: Operation -> string)
    requires forall k :: 0 <= k < |a| ==> IndexRepresentable(a[k])
    requires forall k :: 0 <= k < |b| ==> IndexRepresentable(b[k])
    ensures ChainText(a + b, showNumber, opName) == ChainText(a, showNumber, opName) + ChainText(b, showNumber, opName)
  {
    if a == [] {
      assert a + b == b;
    } else {
      assert (a + b)[0] == a[0] && (a + b)[1..] == a[1..] + b;
      ChainTextAppend(a[1..], b, showNumber, opName);
      var cell := CellText(a[0], showNumber, opName);
      var restA := ChainText(a[1..], showNumber, opName);
      var textB := ChainText(b, showNumber, opName);
      assert ChainText(a + b, showNumber, opName) == cell + (restA + textB);
      assert cell + (restA + textB) == (cell + restA) + textB;
    }
  }

  function CountNone(chain: seq<Record>): nat
  {
    if chain == [] then 0 else (if chain[0].op == None then 1 else 0) + CountNone(chain[1..])
  }

  function CountChar(s: string, ch: char): nat
  {
    if s == [] then 0 else (if s[0] == ch then 1 else 0) + CountChar(s[1..], ch)
  }

  lemma {:induction false} CountCharAppend(a: string, b: string, ch: char)
    ensures CountChar(a + b, ch) == CountChar(a, ch) + CountChar(b, ch)
  {
    if a == [] {
      assert a + b == b;
    } else {
      assert (a + b)[0] == a[0] && (a + b)[1..] == a[1..] + b;
      CountCharAppend(a[1..], b, ch);
    }
  }

  lemma {:induction false} NoCharNoCount(s: string, ch: char)
    requires ch !in s
    ensures CountChar(s, ch) == 0
  {
    if s != [] {
      NoCharNoCount(s[1..], ch);
    }
  }

  lemma {:induction false} DigitsHaveNoBreak(s: string)
    requires AllDigits(s)
    ensures '\n' !in s
  {
    forall k | 0 <= k < |s|
      ensures s[k] != '\n'
    {
      assert '0' <= s[k] <= '9';
    }
  }

  /** A cell's own text stays on one line when numbers and operator names do. */
  lemma CellTextHasNoBreak(r: Record, showNumber: real -> string, opName: Operation -> string)
    requires IndexRepresentable(r)
    requires forall x :: '\n' !in showNumber(x)
    requires forall op :: '\n' !in opName(op)
    ensures '\n' !in RecordString(r, showNumber, opName)
  {
    var sign := SignText(r.prefix);
    var token := match KindOf(r)
      case Link(k) => "#" + Decimal(k)
      case Variable(k) => "v" + Decimal(k)
      case Literal => showNumber(r.number);
    var suffix := if r.op == None then "" else " " + opName(r.op);
    assert RecordString(r, showNumber, opName) == sign + token + suffix;
    match KindOf(r) {
      case Link(k) => DigitsHaveNoBreak(Decimal(k));
      case Variable(k) => DigitsHaveNoBreak(Decimal(k));
      case Literal =>
    }
    assert '\n' !in token;
  }

  /** When numbers and operator names print on one line, the text has one line per line of the chain. */
  lemma {:induction false} OneLineBreakPerLine(chain: seq<Record>, showNumber: real -> string, opName: Operation -> string)
    requires forall k :: 0 <= k < |chain| ==> IndexRepresentable(chain[k])
    requires forall x :: '\n' !in showNumber(x)
    requires forall op :: '\n' !in opName(op)
    ensures CountChar(ChainText(chain, showNumber, opName), '\n') == CountNone(chain)
  {
    if chain != [] {
      var r := chain[0];
      var cell := RecordString(r, showNumber, opName);
      CellTextHasNoBreak(r, showNumber, opName);
      NoCharNoCount(cell, '\n');
      var nl := if r.op == None then "\n" else "";
      assert CellText(r, showNumber, opName) == cell + " " + nl;
      assert CountChar(" ", '\n') == 0 by {
        assert " "[1..] == [];
      }
      assert CountChar(nl, '\n') == (if r.op == None then 1 else 0) by {
        if r.op == None {
          assert nl[1..] == [];
        }
      }
      var rest := ChainText(chain[1..], showNumber, opName);
      assert ChainText(chain, showNumber, opName) == cell + " " + nl + rest;
      CountCharAppend(cell, " ", '\n');
      CountCharAppend(cell + " ", nl, '\n');
      CountCharAppend(cell + " " + nl, rest, '\n');
      OneLineBreakPerLine(chain[1..], showNumber, opName);
    }
  }

  class MathematicalFunction {
    var chain: seq<Record>
    /** The working copy `solve` leaves behind. */
    var result: seq<Record>

    constructor (chain: seq<Record>)
      ensures this.chain == chain && result == []
    {
      this.chain := chain;
      result := [];
    }

    /**
     * solve: copies the chain into the working copy and walks it line by line.
     * The returned value is `Eval`'s, and the working copy keeps every cell's
     * operator, prefix and flags.
     */
    method Solve(variables: seq<real>, pow: (real, real) -> real) returns (r: Result<real>)
      modifies this
      ensures chain == old(chain)
      ensures r == Eval(chain, variables, pow)
      ensures Skeleton(result) == Skeleton(chain)
    {
      var w := chain;
      var n := |w|;
      if n == 0 {
        result := w;
        return Err(EmptyChain);
      }
      ghost var target := Eval(chain, variables, pow);
      var i := 0;
      while i < n - 1
        invariant chain == old(chain)
        invariant |w| == n && Skeleton(w) == Skeleton(chain)
        invariant i < n - 1 ==> Reduce(w, variables, pow, i, i) == target
        invariant i >= n - 1 ==> target == Err(FallsOffEnd)
        decreases n - i
      {
        var returned, value, last;
        w, returned, value, last := WalkLine(w, variables, pow, i);
        if returned {
          result := w;
          return value;
        }
        i := last + 1;
      }
      result := w;
      return Err(FallsOffEnd);
    }

    /**
     * The inner loop of solve for outer index i: combines cells c + 1 = i + 1,
     * i + 2, ... into slot i until a `none` cell is met. Either solve returns
     * `value` (the last line, or an operand that cannot be read), or the outer
     * loop goes on after `last`: the `none` cell that ended the line, or i itself
     * when the chain ran out first.
     */
    static method WalkLine(w0: seq<Record>, variables: seq<real>, pow: (real, real) -> real, i: nat)
      returns (w: seq<Record>, returned: bool, value: Result<real>, last: nat)
      requires i < |w0| - 1
      ensures |w| == |w0| && Skeleton(w) == Skeleton(w0)
      ensures returned ==> value == Reduce(w0, variables, pow, i, i)
      ensures !returned ==> i <= last < |w| && Continue(w, variables, pow, last) == Reduce(w0, variables, pow, i, i)
    {
      w := w0;
      var n := |w|;
      ghost var target := Reduce(w0, variables, pow, i, i);
      var c := i;
      while c < n - 1
        invariant i <= c <= n - 1
        invariant |w| == n && Skeleton(w) == Skeleton(w0)
        invariant c < n - 1 ==> Reduce(w, variables, pow, i, c) == target
        invariant c == n - 1 ==> Continue(w, variables, pow, i) == target
        decreases n - c
      {
        var op := w[c].op;
        var isCNon := w[c + 1].op == None;
        ghost var before := w;
        if i == c {
          var start := Operand(w, variables, i);
          if start.Err? {
            return w, true, Err(start.error), i;
          }
          WritingKeepsSkeleton(w, i, start.value);
          w := WithNumber(w, i, start.value);
        }
        var right := Operand(w, variables, c + 1);
        if right.Err? {
          return w, true, Err(right.error), i;
        }
        ghost var start := w[i].number;
        WritingKeepsSkeleton(w, i, Apply(op, start, right.value, pow));
        ReduceOnce(before, variables, pow, i, c, start, right.value);
        OverwriteTwice(before, i, start, Apply(op, start, right.value, pow));
        w := WithNumber(w, i, Apply(op, w[i].number, right.value, pow));
        if isCNon {
          if c == n - 2 {
            return w, true, Ok(w[i].number), i;
          }
          return w, false, Err(FallsOffEnd), c + 1;
        }
        c := c + 1;
      }
      return w, false, Err(FallsOffEnd), i;
    }

    /** operator(): the arguments become the variables. */
    method Call(args: seq<real>, pow: (real, real) -> real) returns (r: Result<real>)
      modifies this
      ensures chain == old(chain)
      ensures r == Eval(chain, args, pow)
    {
      r := Solve(args, pow);
    }

    function String(showNumber: real -> string, opName: Operation -> string): string
      reads this
      requires forall k :: 0 <= k < |chain| ==> IndexRepresentable(chain[k])
    {
      ChainText(chain, showNumber, opName)
    }
  }
}
