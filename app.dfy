/** The calculator engine: two f64 registers and an append-only history of operations,
    changed through Operate and Clear. Step is the same state machine as a function on values;
    Operate is proved to do exactly what Step says. */
module App {
  import opened Wrappers
  import opened Float

  /** The buttons' operations; Append carries a digit, the arithmetic ones an operand. */
  datatype Operation =
    | Add | Append | Subtract | Multiply | Divide | Square | SquareRoot
    | Negate | Equal | Decimal | None

  /** What Equal skips when it looks back for the operation to repeat. */
  const NotReplayed: seq<Operation> := [Equal, Append, Decimal]

  /** A whole number from 0 to 9, the only operand the digit buttons pass to Append. */
  predicate IsDigitValue(x: real) {
    IsWhole(x) && 0.0 <= x <= 9.0
  }

  /** The operand Operate unwraps: a number for the six arithmetic operations, a digit for
      Append; Negate, Equal, Decimal and None ignore theirs. */
  predicate Supplied(op: Operation, rhs: Option<real>) {
    match op
    case Add | Subtract | Multiply | Divide | Square | SquareRoot => rhs.Some?
    case Append => rhs.Some? && IsDigitValue(rhs.value)
    case _ => true
  }

  /** The engine's state as a value: the two registers and the history, oldest first. */
  datatype CalcState = CalcState(total: F64, current: real, history: seq<Operation>)

  /** The state of a newly made calculator (its Default). */
  const Initial := CalcState(Finite(0.0), 0.0, [])

  /** The newest entry of history that is not in excluded, if there is one. */
  function LastOperationExcluding(history: seq<Operation>, excluded: seq<Operation>): (r: Option<Operation>)
    ensures r.Some? ==> r.value !in excluded
    ensures r.Some? ==> exists i :: 0 <= i < |history| && history[i] == r.value &&
                          forall j :: i < j < |history| ==> history[j] in excluded
    ensures r.None? <==> forall j :: 0 <= j < |history| ==> history[j] in excluded
  {
    if history == [] then Option.None
    else if history[|history| - 1] in excluded then
      var r := LastOperationExcluding(history[..|history| - 1], excluded);
      assert forall j :: 0 <= j < |history| - 1 ==> history[..|history| - 1][j] == history[j];
      r
    else Some(history[|history| - 1])
  }

  /** Whether a point is waiting to be written: the newest history entry is Decimal. */
  predicate PointPending(history: seq<Operation>) {
    history != [] && history[|history| - 1] == Decimal
  }

  /** The new value of current when the digit d is entered: a point goes before the digit when
      one is pending and current is whole, otherwise the digit follows current's text. */
  function AppendDigit(p: Platform, current: real, d: Digit, pointPending: bool): (r: real)
  {
    if pointPending && IsWhole(current) then PointDigit(current, d)
    else ConcatDigit(p, current, d)
  }

  /** One call of operate: the registers change as op says, then op joins the history. Equal
      first replays the newest operation not in NotReplayed with current as its operand. */
  function Step(p: Platform, s: CalcState, op: Operation, rhs: Option<real>): (r: CalcState)
    requires Supplied(op, rhs)
    decreases if op == Equal then 1 else 0
  {
    var t := match op
      case Add => s.(total := Plus(s.total, rhs.value), current := 0.0)
      case Append => s.(current := AppendDigit(p, s.current, rhs.value.Floor, PointPending(s.history)))
      case Subtract =>
        s.(total := if IsZero(s.total) then Finite(rhs.value) else Minus(s.total, rhs.value), current := 0.0)
      case Multiply =>
        s.(total := if IsZero(s.total) then Finite(rhs.value) else Times(s.total, rhs.value), current := 0.0)
      case Divide =>
        s.(total := if IsZero(s.total) then Finite(rhs.value) else Over(s.total, rhs.value), current := 0.0)
      case Square => s.(total := SquareOf(rhs.value), current := 0.0)
      case SquareRoot => s.(total := SquareRootOf(p, rhs.value), current := 0.0)
      case Negate => s.(current := s.current * -1.0)
      case Equal =>
        (match LastOperationExcluding(s.history, NotReplayed)
         case None => s
         case Some(previous) => Step(p, s, previous, Some(s.current)))
      case _ => s;
    t.(history := t.history + [op])
  }

  class Calculator {
    var total: F64
    var current: real
    var operationHistory: seq<Operation>
    /** The f64 square root and text rounding the engine calls into. */
    const platform: Platform

    function Snapshot(): CalcState
      reads this
    {
      CalcState(total, current, operationHistory)
    }

    /** Calculator::default: both registers zero and no history. */
    constructor (platform: Platform)
      ensures Snapshot() == Initial && this.platform == platform
    {
      total := Finite(0.0);
      current := 0.0;
      operationHistory := [];
      this.platform := platform;
    }

    /** Applies one operation; the caller reads total and current afterwards. */
    method Operate(operation: Operation, rhs: Option<real>)
      requires Supplied(operation, rhs)
      modifies this
      ensures Snapshot() == Step(platform, old(Snapshot()), operation, rhs)
      decreases if operation == Equal then 1 else 0
    {
      match operation {
        case Add =>
          total := Plus(total, rhs.value);
          current := 0.0;
        case Append =>
          var previousOperation := if operationHistory == [] then Option.None
                                   else Some(operationHistory[|operationHistory| - 1]);
          var digit: Digit := rhs.value.Floor;
          match previousOperation {
            case None =>
              current := ConcatDigit(platform, current, digit);
            case Some(previous) =>
              if previous == Decimal && IsWhole(current) {
                current := PointDigit(current, digit);
              } else {
                current := ConcatDigit(platform, current, digit);
              }
          }
        case Subtract =>
          if IsZero(total) {
            total := Finite(rhs.value);
          } else {
            total := Minus(total, rhs.value);
          }
          current := 0.0;
        case Multiply =>
          if IsZero(total) {
            total := Finite(rhs.value);
          } else {
            total := Times(total, rhs.value);
          }
          current := 0.0;
        case Divide =>
          if IsZero(total) {
            total := Finite(rhs.value);
          } else {
            total := Over(total, rhs.value);
          }
          current := 0.0;
        case Square =>
          total := SquareOf(rhs.value);
          current := 0.0;
        case SquareRoot =>
          total := SquareRootOf(platform, rhs.value);
          current := 0.0;
        case Negate =>
          current := current * -1.0;
        case Equal =>
          var previousOperation := FindLastOperationExcluding(NotReplayed);
          match previousOperation {
            case None =>
            case Some(previous) =>
              Operate(previous, Some(current));
          }
        case _ =>
      }
      operationHistory := operationHistory + [operation];
    }

    /** Scans the history from the newest entry back for one not in excluded. */
    method FindLastOperationExcluding(excluded: seq<Operation>) returns (r: Option<Operation>)
      ensures r == LastOperationExcluding(operationHistory, excluded)
    {
      var i := |operationHistory|;
      assert operationHistory[..i] == operationHistory;
      while i > 0
        invariant 0 <= i <= |operationHistory|
        invariant LastOperationExcluding(operationHistory[..i], excluded)
               == LastOperationExcluding(operationHistory, excluded)
      {
        var operation := operationHistory[i - 1];
        if operation !in excluded {
          return Some(operation);
        }
        assert operationHistory[..i][..i - 1] == operationHistory[..i - 1];
        i := i - 1;
      }
      return Option.None;
    }

    /** The "C" button: both registers back to zero; the history is kept. */
    method Clear()
      modifies this
      ensures total == Finite(0.0) && current == 0.0
      ensures operationHistory == old(operationHistory)
    {
      current := 0.0;
      total := Finite(0.0);
    }
  }
}
