/** What the calculator engine promises, stated about Step (and so, through Operate's
    postcondition, about every call of Calculator.Operate). */
module Properties {
  import opened Wrappers
  import opened Float
  import opened DecimalText
  import opened App

  /** A button press: the operation and the operand the GUI passes with it. */
  datatype Press = Press(op: Operation, rhs: Option<real>)

  predicate AllSupplied(presses: seq<Press>) {
    forall i :: 0 <= i < |presses| ==> Supplied(presses[i].op, presses[i].rhs)
  }

  /** The state after the presses, oldest first, starting from s. */
  function Run(p: Platform, s: CalcState, presses: seq<Press>): CalcState
    requires AllSupplied(presses)
  {
    if presses == [] then s
    else
      var last := presses[|presses| - 1];
      Step(p, Run(p, s, presses[..|presses| - 1]), last.op, last.rhs)
  }

  /** The operation Equal would replay from history s.history, for op == Equal. */
  function Replayed(s: CalcState, op: Operation): Option<Operation> {
    if op == Equal then LastOperationExcluding(s.history, NotReplayed) else Option.None
  }

  predicate IsArithmetic(op: Operation) {
    op in [Add, Subtract, Multiply, Divide, Square, SquareRoot]
  }

  // ---------------------------------------------------------------------------------------
  // The history

  /** Every call ends by pushing its own operation; Equal that finds an operation to repeat
      pushes that one first, so the history grows by two exactly then, by one otherwise. */
  lemma HistoryGrowth(p: Platform, s: CalcState, op: Operation, rhs: Option<real>)
    requires Supplied(op, rhs)
    ensures Step(p, s, op, rhs).history ==
              s.history + (if Replayed(s, op).Some? then [Replayed(s, op).value] else []) + [op]
    ensures |Step(p, s, op, rhs).history| == |s.history| + 2 <==> Replayed(s, op).Some?
    ensures |Step(p, s, op, rhs).history| == |s.history| + 1 <==> Replayed(s, op).None?
  {
    if op == Equal && Replayed(s, op).Some? {
      var previous := Replayed(s, op).value;
      assert previous != Equal;
      assert Step(p, s, previous, Some(s.current)).history == s.history + [previous];
    }
  }

  /** Over any run of presses the history only grows at its end: what was there stays, and
      each press adds one or two entries, the last being the last press's operation. */
  lemma {:induction false} RunHistory(p: Platform, s: CalcState, presses: seq<Press>)
    requires AllSupplied(presses)
    ensures |s.history| + |presses| <= |Run(p, s, presses).history| <= |s.history| + 2 * |presses|
    ensures Run(p, s, presses).history[..|s.history|] == s.history
    ensures presses != [] ==>
              Run(p, s, presses).history[|Run(p, s, presses).history| - 1] == presses[|presses| - 1].op
  {
    if presses != [] {
      var front := presses[..|presses| - 1];
      var last := presses[|presses| - 1];
      assert AllSupplied(front);
      RunHistory(p, s, front);
      var before := Run(p, s, front);
      HistoryGrowth(p, before, last.op, last.rhs);
      var after := Run(p, s, presses);
      assert after.history[..|before.history|] == before.history;
      assert after.history[..|s.history|] == before.history[..|s.history|];
    }
  }

  // ---------------------------------------------------------------------------------------
  // The backward search

  /** The search returns the newest entry outside the exclusion list. */
  lemma LastOperationIsNewest(history: seq<Operation>, excluded: seq<Operation>, i: nat)
    requires i < |history| && history[i] !in excluded
    requires forall j :: i < j < |history| ==> history[j] in excluded
    ensures LastOperationExcluding(history, excluded) == Some(history[i])
  {
    var r := LastOperationExcluding(history, excluded);
    assert r.Some?;
    var k :| 0 <= k < |history| && history[k] == r.value &&
             forall j :: k < j < |history| ==> history[j] in excluded;
    assert !(k < i) && !(i < k);
  }

  /** The search ignores entries older than the newest one it can return. */
  lemma {:induction false} SearchIgnoresOlderEntries(older: seq<Operation>, newer: seq<Operation>, excluded: seq<Operation>)
    requires LastOperationExcluding(newer, excluded).Some?
    ensures LastOperationExcluding(older + newer, excluded) == LastOperationExcluding(newer, excluded)
  {
    var k :| 0 <= k < |newer| && newer[k] == LastOperationExcluding(newer, excluded).value &&
             forall j :: k < j < |newer| ==> newer[j] in excluded;
    var h := older + newer;
    assert forall j :: |older| + k < j < |h| ==> h[j] == newer[j - |older|];
    LastOperationIsNewest(h, excluded, |older| + k);
  }

  // ---------------------------------------------------------------------------------------
  // The registers

  /** Add sets total to total + rhs and clears current. */
  lemma AddAccumulates(p: Platform, s: CalcState, x: real)
    ensures Step(p, s, Add, Some(x)).total == Plus(s.total, x)
    ensures s.total.Finite? ==> Step(p, s, Add, Some(x)).total == Finite(s.total.value + x)
    ensures Step(p, s, Add, Some(x)).current == 0.0
    ensures Step(p, s, Add, Some(x)).history == s.history + [Add]
  {
  }

  /** The identity-seed rule: Subtract, Multiply and Divide against a zero total make the
      operand the total; against any other total they apply the operator. */
  lemma IdentitySeed(p: Platform, s: CalcState, op: Operation, x: real)
    requires op == Subtract || op == Multiply || op == Divide
    ensures IsZero(s.total) ==> Step(p, s, op, Some(x)).total == Finite(x)
    ensures s.total.Finite? && !IsZero(s.total) && op == Subtract ==>
              Step(p, s, op, Some(x)).total == Finite(s.total.value - x)
    ensures s.total.Finite? && !IsZero(s.total) && op == Multiply ==>
              Step(p, s, op, Some(x)).total == Finite(s.total.value * x)
    ensures s.total.Finite? && !IsZero(s.total) && op == Divide ==>
              Step(p, s, op, Some(x)).total == if x == 0.0 then NonFinite else Finite(s.total.value / x)
    ensures s.total.NonFinite? ==> Step(p, s, op, Some(x)).total.NonFinite?
    ensures Step(p, s, op, Some(x)).current == 0.0
    ensures Step(p, s, op, Some(x)).history == s.history + [op]
  {
  }

  /** Square and SquareRoot discard the previous total: the new total depends on the operand
      alone, and current is cleared. */
  lemma SquareDiscardsTotal(p: Platform, s: CalcState, s': CalcState, op: Operation, x: real)
    requires op == Square || op == SquareRoot
    ensures Step(p, s, op, Some(x)).total == Step(p, s', op, Some(x)).total
    ensures Step(p, s, op, Some(x)).current == 0.0
    ensures op == Square ==> Step(p, s, op, Some(x)).total == Finite(x * x)
    ensures op == SquareRoot ==> (Step(p, s, op, Some(x)).total.NonFinite? <==> x < 0.0)
  {
  }

  /** Negate flips the sign of current; Decimal and None change neither register. */
  lemma RegistersLeftAlone(p: Platform, s: CalcState, op: Operation, rhs: Option<real>)
    requires op == Negate || op == Decimal || op == Operation.None
    ensures Step(p, s, op, rhs).total == s.total
    ensures Step(p, s, op, rhs).current == (if op == Negate then -s.current else s.current)
    ensures Step(p, s, op, rhs).history == s.history + [op]
  {
  }

  /** The operand passed with Negate, Equal, Decimal and None makes no difference. */
  lemma OperandIgnored(p: Platform, s: CalcState, op: Operation, rhs: Option<real>, rhs': Option<real>)
    requires op == Negate || op == Equal || op == Decimal || op == Operation.None
    ensures Step(p, s, op, rhs) == Step(p, s, op, rhs')
  {
  }

  /** Only Add, Subtract, Multiply, Divide, Square and SquareRoot write total, directly or
      replayed by Equal; they are also exactly the operations that clear a nonzero current. */
  lemma TotalWriters(p: Platform, s: CalcState, op: Operation, rhs: Option<real>)
    requires Supplied(op, rhs)
    ensures Step(p, s, op, rhs).total != s.total ==>
              IsArithmetic(op) || (op == Equal && Replayed(s, op).Some? && IsArithmetic(Replayed(s, op).value))
    ensures IsArithmetic(op) ==> Step(p, s, op, rhs).current == 0.0
  {
    if op == Equal && Replayed(s, op).Some? {
      var previous := Replayed(s, op).value;
      assert previous != Equal;
    }
  }

  // ---------------------------------------------------------------------------------------
  // Equal

  /** Equal with nothing to repeat (an empty history, or only Equal, Append and Decimal in
      it) leaves both registers as they are. */
  lemma EqualWithoutReplay(p: Platform, s: CalcState, rhs: Option<real>)
    requires forall j :: 0 <= j < |s.history| ==> s.history[j] in NotReplayed
    ensures Step(p, s, Equal, rhs) == s.(history := s.history + [Equal])
  {
  }

  /** Equal repeats the newest history entry that is not Equal, Append or Decimal, with
      current as its operand; that entry is never Equal, so the repetition goes one level deep. */
  lemma EqualReplays(p: Platform, s: CalcState, rhs: Option<real>, i: nat)
    requires i < |s.history| && s.history[i] !in NotReplayed
    requires forall j :: i < j < |s.history| ==> s.history[j] in NotReplayed
    ensures s.history[i] != Equal
    ensures var previous := s.history[i];
            var replay := Step(p, s, previous, Some(s.current));
            Step(p, s, Equal, rhs) == replay.(history := s.history + [previous, Equal])
  {
    LastOperationIsNewest(s.history, NotReplayed, i);
  }

  /** Equal after Add, with digits typed in between, adds current to total again. */
  lemma EqualRepeatsAdd(p: Platform, s: CalcState)
    requires LastOperationExcluding(s.history, NotReplayed) == Some(Add)
    ensures Step(p, s, Equal, Option.None).total == Plus(s.total, s.current)
    ensures Step(p, s, Equal, Option.None).current == 0.0
    ensures Step(p, s, Equal, Option.None).history == s.history + [Add, Equal]
  {
  }

  // ---------------------------------------------------------------------------------------
  // Digit entry

  /** Append changes current only; total stays. */
  lemma AppendKeepsTotal(p: Platform, s: CalcState, d: Digit)
    ensures Step(p, s, Append, Some(d as real)).total == s.total
    ensures Step(p, s, Append, Some(d as real)).history == s.history + [Append]
  {
  }

  /** The point is written before a nonzero digit exactly when the newest history entry is
      Decimal: only then does a whole current become fractional. */
  lemma PointOnlyAfterDecimal(p: Platform, s: CalcState, d: Digit)
    requires IsWhole(s.current) && d != 0
    ensures !IsWhole(Step(p, s, Append, Some(d as real)).current) <==> PointPending(s.history)
  {
    assert (d as real).Floor == d;
    if !PointPending(s.history) {
      ConcatDigitOfWhole(p, s.current, d);
      var r := Step(p, s, Append, Some(d as real)).current;
      assert r == ((10 * s.current.Floor + Sign(s.current) * d) as real);
    }
  }

  /** Digit entry on a non-negative whole current, with the arithmetic it amounts to: the
      digit goes after a pending point (current + d / 10), or is appended (current * 10 + d). */
  lemma AppendToWhole(p: Platform, s: CalcState, d: Digit)
    requires IsWhole(s.current) && s.current >= 0.0
    ensures Step(p, s, Append, Some(d as real)).current ==
              if PointPending(s.history) then s.current + (d as real) / 10.0
              else 10.0 * s.current + d as real
  {
    assert (d as real).Floor == d;
    if !PointPending(s.history) {
      ConcatDigitOfWhole(p, s.current, d);
    }
  }

  /** Digit entry as the source does it, for every current whose decimal expansion ends: the
      text of current, a point if one is pending and current is whole, and the digit, parsed
      back as a number. */
  lemma AppendIsTextual(p: Platform, s: CalcState, d: Digit)
    requires Places(s.current).Some?
    ensures Parse(Text(s.current) + (if PointPending(s.history) && IsWhole(s.current) then "." else "")
                  + [DigitChar(d)])
            == Some(Step(p, s, Append, Some(d as real)).current)
  {
    assert (d as real).Floor == d;
    if PointPending(s.history) && IsWhole(s.current) {
      TextOfWhole(s.current);
      ParseWholePointDigit(s.current, d);
    } else {
      assert Text(s.current) + "" + [DigitChar(d)] == Text(s.current) + [DigitChar(d)];
      ParseTextThenDigit(p, s.current, d);
    }
  }

  /** After a fractional current the digit goes after the last printed decimal, whether or
      not Decimal came just before; a zero is lost, since the text of 1.50 is "1.5". */
  lemma AppendToFraction(p: Platform, s: CalcState, d: Digit, k: nat)
    requires Places(s.current) == Some(k) && k > 0
    ensures Step(p, s, Append, Some(d as real)).current ==
              s.current + ((Sign(s.current) * d) as real) / (Pow10(k + 1) as real)
    ensures d == 0 ==> Step(p, s, Append, Some(d as real)).current == s.current
  {
    assert (d as real).Floor == d;
    assert !IsWhole(s.current) by {
      assert Shifted(s.current, 0) == s.current;
    }
  }

  /** The presses of the digit buttons for ds, in order. */
  function DigitPresses(ds: seq<Digit>): (r: seq<Press>)
    ensures |r| == |ds| && AllSupplied(r)
    ensures forall i :: 0 <= i < |ds| ==> r[i] == Press(Append, Some(ds[i] as real))
  {
    if ds == [] then []
    else
      assert (ds[|ds| - 1] as real).Floor == ds[|ds| - 1];
      DigitPresses(ds[..|ds| - 1]) + [Press(Append, Some(ds[|ds| - 1] as real))]
  }

  /** The text the digits ds spell. */
  function DigitsText(ds: seq<Digit>): (t: string)
    ensures |t| == |ds| && AllDigits(t)
    ensures forall i :: 0 <= i < |ds| ==> t[i] == DigitChar(ds[i])
  {
    if ds == [] then [] else DigitsText(ds[..|ds| - 1]) + [DigitChar(ds[|ds| - 1])]
  }

  /** Typing digits with no Decimal, from current zero, leaves the number they spell in
      current (1, 2, 3 gives 123), total untouched, and one Append per digit in the history. */
  lemma {:induction false} TypingDigits(p: Platform, s: CalcState, ds: seq<Digit>)
    requires s.current == 0.0 && !PointPending(s.history)
    ensures Run(p, s, DigitPresses(ds)).current == DigitsValue(DigitsText(ds)) as real
    ensures Run(p, s, DigitPresses(ds)).total == s.total
    ensures Run(p, s, DigitPresses(ds)).history == s.history + seq(|ds|, _ => Append)
  {
    if ds != [] {
      var front := ds[..|ds| - 1];
      var d := ds[|ds| - 1];
      assert DigitPresses(ds)[..|ds| - 1] == DigitPresses(front);
      TypingDigits(p, s, front);
      var before := Run(p, s, DigitPresses(front));
      assert !PointPending(before.history);
      assert (d as real).Floor == d;
      ConcatDigitOfWhole(p, before.current, d);
      assert DigitsText(ds) == DigitsText(front) + [DigitChar(d)];
      DigitsValueSnoc(DigitsText(front), d);
      assert s.history + seq(|ds|, _ => Append) == s.history + seq(|front|, _ => Append) + [Append];
    } else {
      assert s.history + seq(0, _ => Append) == s.history;
    }
  }

  // ---------------------------------------------------------------------------------------
  // Scenarios, from a new calculator

  function AppendPress(d: Digit): Press {
    Press(Append, Some(d as real))
  }

  const DecimalPress := Press(Decimal, Option.None)

  /** Running one more press is one more Step. */
  lemma RunSnoc(p: Platform, s: CalcState, presses: seq<Press>, q: Press)
    requires AllSupplied(presses) && Supplied(q.op, q.rhs)
    ensures AllSupplied(presses + [q])
    ensures Run(p, s, presses + [q]) == Step(p, Run(p, s, presses), q.op, q.rhs)
  {
    assert (presses + [q])[..|presses|] == presses;
  }

  /** A run whose state is known, extended by a press whose Step from that state is known. */
  lemma RunExtends(p: Platform, presses: seq<Press>, q: Press, before: CalcState, after: CalcState)
    requires AllSupplied(presses) && Supplied(q.op, q.rhs)
    requires Run(p, Initial, presses) == before && Step(p, before, q.op, q.rhs) == after
    ensures AllSupplied(presses + [q]) && Run(p, Initial, presses + [q]) == after
  {
    RunSnoc(p, Initial, presses, q);
  }

  /** A digit typed on a non-negative whole current with no point pending. */
  lemma DigitOnWhole(p: Platform, s: CalcState, d: Digit)
    requires IsWhole(s.current) && s.current >= 0.0 && !PointPending(s.history)
    ensures Step(p, s, Append, Some(d as real)) == s.(current := 10.0 * s.current + d as real, history := s.history + [Append])
  {
    AppendToWhole(p, s, d);
    AppendKeepsTotal(p, s, d);
  }

  /** 1 and . from a new calculator: current is 1 and the point is pending. */
  lemma OneThenPoint(p: Platform)
    ensures AllSupplied([AppendPress(1), DecimalPress])
    ensures Run(p, Initial, [AppendPress(1), DecimalPress]) == CalcState(Finite(0.0), 1.0, [Append, Decimal])
  {
    var s1 := CalcState(Finite(0.0), 1.0, [Append]);
    var s2 := s1.(history := [Append, Decimal]);
    assert Step(p, Initial, Append, Some(1 as real)) == s1 by {
      DigitOnWhole(p, Initial, 1);
    }
    RunExtends(p, [], AppendPress(1), Initial, s1);
    var r1 := [] + [AppendPress(1)];
    assert Step(p, s1, Decimal, Option.None) == s2 by {
      RegistersLeftAlone(p, s1, Decimal, Option.None);
    }
    RunExtends(p, r1, DecimalPress, s1, s2);
    assert r1 + [DecimalPress] == [AppendPress(1), DecimalPress];
  }

  /** 1, ., 5 enters 1.5. */
  lemma OnePointFive(p: Platform)
    ensures AllSupplied([AppendPress(1), DecimalPress, AppendPress(5)])
    ensures Run(p, Initial, [AppendPress(1), DecimalPress, AppendPress(5)])
            == CalcState(Finite(0.0), 1.5, [Append, Decimal, Append])
  {
    var r2 := [AppendPress(1), DecimalPress];
    var s2 := CalcState(Finite(0.0), 1.0, [Append, Decimal]);
    var s3 := CalcState(Finite(0.0), 1.5, [Append, Decimal, Append]);
    OneThenPoint(p);
    assert Step(p, s2, Append, Some(5 as real)) == s3 by {
      AppendToWhole(p, s2, 5);
      AppendKeepsTotal(p, s2, 5);
    }
    RunExtends(p, r2, AppendPress(5), s2, s3);
    assert r2 + [AppendPress(5)] == [AppendPress(1), DecimalPress, AppendPress(5)];
  }

  /** 1, ., 5, ., 2 enters 1.52: the second point is not written, because 1.5 is not whole. */
  lemma OnePointFiveTwo(p: Platform)
    ensures AllSupplied([AppendPress(1), DecimalPress, AppendPress(5), DecimalPress, AppendPress(2)])
    ensures Run(p, Initial, [AppendPress(1), DecimalPress, AppendPress(5), DecimalPress, AppendPress(2)]).current
            == 1.52
  {
    var r3 := [AppendPress(1), DecimalPress, AppendPress(5)];
    var s3 := CalcState(Finite(0.0), 1.5, [Append, Decimal, Append]);
    var s4 := s3.(history := [Append, Decimal, Append, Decimal]);
    OnePointFive(p);
    assert Step(p, s3, Decimal, Option.None) == s4 by {
      RegistersLeftAlone(p, s3, Decimal, Option.None);
    }
    RunExtends(p, r3, DecimalPress, s3, s4);
    var r4 := r3 + [DecimalPress];
    var s5 := Step(p, s4, Append, Some(2 as real));
    assert s5.current == 1.52 by {
      assert Places(1.5) == Some(1) by {
        assert !IsWhole(Shifted(1.5, 0)) && IsWhole(Shifted(1.5, 1));
      }
      AppendToFraction(p, s4, 2, 1);
    }
    RunExtends(p, r4, AppendPress(2), s4, s5);
    assert r4 + [AppendPress(2)] == [AppendPress(1), DecimalPress, AppendPress(5), DecimalPress, AppendPress(2)];
  }

  /** 1, ., 0, 5 enters 15, not 1.05: the text of 1.0 is "1", so the point written before
      the zero is gone when 5 follows. */
  lemma ZeroAfterPointIsLost(p: Platform)
    ensures AllSupplied([AppendPress(1), DecimalPress, AppendPress(0), AppendPress(5)])
    ensures Run(p, Initial, [AppendPress(1), DecimalPress, AppendPress(0), AppendPress(5)]).current == 15.0
  {
    var r2 := [AppendPress(1), DecimalPress];
    var s2 := CalcState(Finite(0.0), 1.0, [Append, Decimal]);
    var s3 := CalcState(Finite(0.0), 1.0, [Append, Decimal, Append]);
    OneThenPoint(p);
    assert Step(p, s2, Append, Some(0 as real)) == s3 by {
      AppendToWhole(p, s2, 0);
      AppendKeepsTotal(p, s2, 0);
    }
    RunExtends(p, r2, AppendPress(0), s2, s3);
    var r3 := r2 + [AppendPress(0)];
    var s4 := Step(p, s3, Append, Some(5 as real));
    assert s4.current == 15.0 by {
      DigitOnWhole(p, s3, 5);
    }
    RunExtends(p, r3, AppendPress(5), s3, s4);
    assert r3 + [AppendPress(5)] == [AppendPress(1), DecimalPress, AppendPress(0), AppendPress(5)];
  }

  function SubtractPress(x: real): Press {
    Press(Subtract, Some(x))
  }

  /** Subtracting 5 three times from a new calculator gives totals 5, 0 and 5 again: each time
      the total is zero the operand seeds it. */
  lemma SubtractFromZeroSeeds(p: Platform)
    ensures AllSupplied([SubtractPress(5.0), SubtractPress(5.0), SubtractPress(5.0)])
    ensures Run(p, Initial, [SubtractPress(5.0)]).total == Finite(5.0)
    ensures Run(p, Initial, [SubtractPress(5.0), SubtractPress(5.0)]).total == Finite(0.0)
    ensures Run(p, Initial, [SubtractPress(5.0), SubtractPress(5.0), SubtractPress(5.0)]).total == Finite(5.0)
  {
    var minus := SubtractPress(5.0);
    var s1 := CalcState(Finite(5.0), 0.0, [Subtract]);
    var s2 := CalcState(Finite(0.0), 0.0, [Subtract, Subtract]);
    var s3 := CalcState(Finite(5.0), 0.0, [Subtract, Subtract, Subtract]);
    assert Step(p, Initial, Subtract, Some(5.0)) == s1 by {
      IdentitySeed(p, Initial, Subtract, 5.0);
    }
    RunExtends(p, [], minus, Initial, s1);
    var r1 := [] + [minus];
    assert r1 == [minus];
    assert Step(p, s1, Subtract, Some(5.0)) == s2 by {
      IdentitySeed(p, s1, Subtract, 5.0);
    }
    RunExtends(p, r1, minus, s1, s2);
    var r2 := r1 + [minus];
    assert r2 == [minus, minus];
    assert Step(p, s2, Subtract, Some(5.0)) == s3 by {
      IdentitySeed(p, s2, Subtract, 5.0);
    }
    RunExtends(p, r2, minus, s2, s3);
    assert r2 + [minus] == [minus, minus, minus];
  }

  /** +3, +4, then 2 from a new calculator: total 7, current 2. */
  lemma AddsThenTwo(p: Platform)
    ensures AllSupplied([Press(Add, Some(3.0)), Press(Add, Some(4.0)), AppendPress(2)])
    ensures Run(p, Initial, [Press(Add, Some(3.0)), Press(Add, Some(4.0)), AppendPress(2)])
            == CalcState(Finite(7.0), 2.0, [Add, Add, Append])
  {
    var plus3, plus4, two := Press(Add, Some(3.0)), Press(Add, Some(4.0)), AppendPress(2);
    var s1 := CalcState(Finite(3.0), 0.0, [Add]);
    var s2 := CalcState(Finite(7.0), 0.0, [Add, Add]);
    var s3 := CalcState(Finite(7.0), 2.0, [Add, Add, Append]);
    assert Step(p, Initial, Add, Some(3.0)) == s1 by {
      AddAccumulates(p, Initial, 3.0);
    }
    RunExtends(p, [], plus3, Initial, s1);
    var r1 := [] + [plus3];
    assert Step(p, s1, Add, Some(4.0)) == s2 by {
      AddAccumulates(p, s1, 4.0);
    }
    RunExtends(p, r1, plus4, s1, s2);
    var r2 := r1 + [plus4];
    assert Step(p, s2, Append, Some(2 as real)) == s3 by {
      DigitOnWhole(p, s2, 2);
    }
    RunExtends(p, r2, two, s2, s3);
    assert r2 + [two] == [plus3, plus4, two];
  }

  /** +3, +4, then 2 and = : Equal repeats the Add with current as its operand, 7 + 2 = 9, and
      the history gains Add before Equal. */
  lemma EqualAfterAdds(p: Platform)
    ensures AllSupplied([Press(Add, Some(3.0)), Press(Add, Some(4.0)), AppendPress(2), Press(Equal, Option.None)])
    ensures var r := Run(p, Initial, [Press(Add, Some(3.0)), Press(Add, Some(4.0)), AppendPress(2), Press(Equal, Option.None)]);
            r.total == Finite(9.0) && r.current == 0.0 && r.history == [Add, Add, Append, Add, Equal]
  {
    var r3 := [Press(Add, Some(3.0)), Press(Add, Some(4.0)), AppendPress(2)];
    var equal := Press(Equal, Option.None);
    var s3 := CalcState(Finite(7.0), 2.0, [Add, Add, Append]);
    var s4 := CalcState(Finite(9.0), 0.0, [Add, Add, Append, Add, Equal]);
    AddsThenTwo(p);
    assert Step(p, s3, Equal, Option.None) == s4 by {
      LastOperationIsNewest(s3.history, NotReplayed, 1);
      EqualRepeatsAdd(p, s3);
    }
    RunExtends(p, r3, equal, s3, s4);
    assert r3 + [equal] == [Press(Add, Some(3.0)), Press(Add, Some(4.0)), AppendPress(2), equal];
  }

  /** The backward search over [Add, Append, Append, Equal] skipping Equal, Append and Decimal
      finds Add; over a history of only skipped entries it finds nothing. */
  lemma SearchFindsAdd()
    ensures LastOperationExcluding([Add, Append, Append, Equal], NotReplayed) == Some(Add)
    ensures LastOperationExcluding([Append, Decimal, Equal], NotReplayed) == Option.None
  {
    LastOperationIsNewest([Add, Append, Append, Equal], NotReplayed, 0);
  }
}
