/** `CPosNeg`: the three immutable sign objects (Positive, Negative, Zero)
    and their operators. A `nonsensicalEx` becomes an `Err`. The algebra
    tables at the end of the header are restated as constants, and each
    operator is proved to agree with its table and with the arithmetic of
    the signs' values. */
module PosNeg {
  import opened Wrappers

  datatype Sign = Negative | Zero | Positive

  /** `nonsensicalEx`. */
  datatype SignError = Nonsensical

  /** `V()`: 1, -1 or 0. */
  function V(s: Sign): (v: int)
    ensures -1 <= v <= 1
    ensures v > 0 <==> s.Positive?
    ensures v < 0 <==> s.Negative?
  {
    match s
    case Positive => 1
    case Negative => -1
    case Zero => 0
  }

  /** `Create(long)`: the sign of `v`. */
  function Create(v: int): (r: Sign)
    ensures r.Positive? <==> v > 0
    ensures r.Negative? <==> v < 0
    ensures r.Zero? <==> v == 0
  {
    if v > 0 then Positive else if v < 0 then Negative else Zero
  }

  /** Creating from a sign's value gives the sign back. */
  lemma CreateOfV(s: Sign)
    ensures Create(V(s)) == s
  {
  }

  //------------------------------------------------------------------
  // The algebra tables; rows and columns in the order -, 0, +.
  // `None` marks an X, i.e. `nonsensicalEx`.

  function Index(s: Sign): (i: nat)
    ensures i < 3 && V(s) == i - 1
  {
    match s
    case Negative => 0
    case Zero => 1
    case Positive => 2
  }

  const AddTable: seq<seq<Option<Sign>>> := [
    [Some(Negative), Some(Negative), None],
    [Some(Negative), Some(Zero), Some(Positive)],
    [None, Some(Positive), Some(Positive)]]

  const SubTable: seq<seq<Option<Sign>>> := [
    [None, Some(Negative), Some(Negative)],
    [Some(Positive), Some(Zero), Some(Negative)],
    [Some(Positive), Some(Positive), None]]

  const MulTable: seq<seq<Sign>> := [
    [Positive, Zero, Negative],
    [Zero, Zero, Zero],
    [Negative, Zero, Positive]]

  const DivTable: seq<seq<Option<Sign>>> := [
    [Some(Positive), None, Some(Negative)],
    [Some(Zero), None, Some(Zero)],
    [Some(Negative), None, Some(Positive)]]

  const NotTable: seq<Sign> := [Positive, Zero, Negative]

  const LtTable: seq<seq<bool>> := [
    [false, true, true],
    [false, false, true],
    [false, false, false]]

  const GtTable: seq<seq<bool>> := [
    [false, false, false],
    [true, false, false],
    [true, true, false]]

  const EqTable: seq<seq<bool>> := [
    [true, false, false],
    [false, true, false],
    [false, false, true]]

  /** A result read as a table cell. */
  function Cell(r: Result<Sign, SignError>): Option<Sign> {
    if r.Ok? then Some(r.value) else None
  }

  //------------------------------------------------------------------
  // Operators between signs

  /** `operator!`: swaps Positive and Negative. */
  function Not(s: Sign): (r: Sign)
    ensures V(r) == -V(s)
    ensures r == NotTable[Index(s)]
  {
    if s.Negative? then Positive else if s.Positive? then Negative else Zero
  }

  lemma NotInvolution(s: Sign)
    ensures Not(Not(s)) == s
  {
  }

  /** `operator*(CPosNeg)`: Positive returns the operand, Negative its
      negation, Zero itself. */
  function Mul(a: Sign, b: Sign): (r: Sign)
    ensures V(r) == V(a) * V(b)
    ensures r == MulTable[Index(a)][Index(b)]
  {
    match a
    case Positive => b
    case Negative => Not(b)
    case Zero => Zero
  }

  lemma MulCommutative(a: Sign, b: Sign)
    ensures Mul(a, b) == Mul(b, a)
  {
  }

  /** `operator/(CPosNeg)`: division by Zero is nonsensical; otherwise it
      agrees with multiplication. */
  function Div(a: Sign, b: Sign): (r: Result<Sign, SignError>)
    ensures r.Err? <==> b.Zero?
    ensures r.Ok? ==> r.value == Mul(a, b) && V(r.value) * V(b) == V(a)
    ensures Cell(r) == DivTable[Index(a)][Index(b)]
  {
    if b.Zero? then Err(Nonsensical)
    else match a
      case Positive => Ok(b)
      case Negative => Ok(Not(b))
      case Zero => Ok(a)
  }

  /** `operator+(CPosNeg)`: adding opposite non-zero signs is nonsensical,
      Zero is the identity, otherwise the sign is kept. */
  function Add(a: Sign, b: Sign): (r: Result<Sign, SignError>)
    ensures r.Err? <==> V(a) * V(b) == -1
    ensures r.Ok? ==> r.value == Create(V(a) + V(b))
    ensures Cell(r) == AddTable[Index(a)][Index(b)]
  {
    match a
    case Positive => if b.Negative? then Err(Nonsensical) else Ok(Positive)
    case Negative => if b.Positive? then Err(Nonsensical) else Ok(Negative)
    case Zero => Ok(b)
  }

  lemma AddZeroIdentity(s: Sign)
    ensures Add(Zero, s) == Ok(s) && Add(s, Zero) == Ok(s)
  {
  }

  /** `operator-(CPosNeg)`: subtracting equal non-zero signs is nonsensical. */
  function Sub(a: Sign, b: Sign): (r: Result<Sign, SignError>)
    ensures r.Err? <==> V(a) * V(b) == 1
    ensures r.Ok? ==> r.value == Create(V(a) - V(b))
    ensures Cell(r) == SubTable[Index(a)][Index(b)]
  {
    match a
    case Positive => if b.Positive? then Err(Nonsensical) else Ok(Positive)
    case Negative => if b.Negative? then Err(Nonsensical) else Ok(Negative)
    case Zero => Ok(Not(b))
  }

  /** Subtracting is adding the negation, failures included. */
  lemma SubIsAddNot(a: Sign, b: Sign)
    ensures Sub(a, b) == Add(a, Not(b))
  {
  }

  //------------------------------------------------------------------
  // Comparisons

  /** `operator<`. */
  function Lt(a: Sign, b: Sign): (r: bool)
    ensures r <==> V(a) < V(b)
    ensures r == LtTable[Index(a)][Index(b)]
  {
    match a
    case Positive => false
    case Negative => !b.Negative?
    case Zero => b.Positive?
  }

  /** `operator>`. */
  function Gt(a: Sign, b: Sign): (r: bool)
    ensures r <==> V(a) > V(b)
    ensures r == GtTable[Index(a)][Index(b)]
  {
    match a
    case Positive => !b.Positive?
    case Negative => false
    case Zero => b.Negative?
  }

  /** `operator==`. */
  function Eq(a: Sign, b: Sign): (r: bool)
    ensures r <==> a == b
    ensures r == EqTable[Index(a)][Index(b)]
  {
    match a
    case Positive => b.Positive?
    case Negative => b.Negative?
    case Zero => b.Zero?
  }

  /** `operator!=`. */
  function Ne(a: Sign, b: Sign): (r: bool)
    ensures r <==> a != b
  {
    match a
    case Positive => !b.Positive?
    case Negative => !b.Negative?
    case Zero => !b.Zero?
  }

  /** `>` is the converse of `<`, and exactly one of `<`, `==`, `>` holds. */
  lemma OrderTrichotomy(a: Sign, b: Sign)
    ensures Gt(a, b) == Lt(b, a)
    ensures (if Lt(a, b) then 1 else 0) + (if Eq(a, b) then 1 else 0) + (if Gt(a, b) then 1 else 0) == 1
  {
  }

  //------------------------------------------------------------------
  // Postfix steps

  /** Postfix `++`: one step up, stopping at Positive. */
  function Inc(s: Sign): (r: Sign)
    ensures V(r) == if V(s) == 1 then 1 else V(s) + 1
  {
    match s
    case Positive => Positive
    case Negative => Zero
    case Zero => Positive
  }

  /** Postfix `--`: one step down, stopping at Negative. */
  function Dec(s: Sign): (r: Sign)
    ensures V(r) == if V(s) == -1 then -1 else V(s) - 1
  {
    match s
    case Positive => Zero
    case Negative => Negative
    case Zero => Negative
  }

  lemma IncDecMirror(s: Sign)
    ensures Dec(s) == Not(Inc(Not(s)))
  {
  }

  //------------------------------------------------------------------
  // Signs and integers

  /** Member `operator*(long long)`: the value, its negation or 0. */
  function Scale(s: Sign, v: int): (r: int)
    ensures s.Positive? ==> r == v
    ensures s.Negative? ==> r + v == 0
    ensures s.Zero? ==> r == 0
  {
    match s
    case Positive => v
    case Negative => -v
    case Zero => 0
  }

  /** Free `operator*(long long, CPosNeg)`: the value times `V()`. */
  function MulValue(value: int, pn: Sign): (r: int)
    ensures r == Scale(pn, value)
    ensures Create(r) == Mul(Create(value), pn)
  {
    value * V(pn)
  }

  /** Free `operator/(long long, CPosNeg)`: nonsensical for Zero; dividing
      by 1 or -1 is exact, so truncation plays no part. */
  function DivValue(value: int, pn: Sign): (r: Result<int, SignError>)
    ensures r.Err? <==> pn.Zero?
    ensures r.Ok? ==> r.value * V(pn) == value && r.value == Scale(pn, value)
  {
    if pn.Zero? then Err(Nonsensical) else Ok(value / V(pn))
  }
}
