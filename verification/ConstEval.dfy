/** Evaluation of binary instructions on constants (include/opt_passes/constant_fold.hh). */
module ConstEval {
  import opened Wrappers

  datatype TypeId = NoType | I1 | I8 | I16 | I32 | I64

  datatype BinOp = ADD | SUB | MUL | DIV | SHR | XOR | EQ | LE | GE

  /** How many values the type has, and the largest shift it allows plus one (numeric_limits::digits). */
  function Modulus(ty: TypeId): int {
    match ty
    case NoType => 1
    case I1 => 2
    case I8 => 0x100
    case I16 => 0x1_0000
    case I32 => 0x1_0000_0000
    case I64 => 0x1_0000_0000_0000_0000
  }

  function Digits(ty: TypeId): int {
    match ty
    case NoType => 0
    case I1 => 1
    case I8 => 7
    case I16 => 15
    case I32 => 31
    case I64 => 63
  }

  predicate InRange(ty: TypeId, v: int) {
    match ty
    case NoType => false
    case I1 => 0 <= v <= 1
    case _ => -(Modulus(ty) / 2) <= v < Modulus(ty) / 2
  }

  function Bool(b: bool): int {
    if b then 1 else 0
  }

  function Pow2(n: nat): (p: int)
    ensures p >= 1
  {
    if n == 0 then 1 else 2 * Pow2(n - 1)
  }

  /** C++ division truncates toward zero. */
  function TruncDiv(a: int, b: int): int
    requires b != 0
  {
    var q := (if a < 0 then -a else a) / (if b < 0 then -b else b);
    if (a < 0) == (b < 0) then q else -q
  }

  /** Bitwise exclusive or of two's-complement integers of any width. */
  function BitXor(a: int, b: int): int
    decreases if a < 0 then -a else a, if b < 0 then -b else b
  {
    if (a == 0 || a == -1) && (b == 0 || b == -1) then (if a == b then 0 else -1)
    else 2 * BitXor(a / 2, b / 2) + (a % 2 + b % 2) % 2
  }

  /** Assigning the int result of an operation to a variable of the type: bool tests for zero, the narrow
      types wrap, and for the wide types a result out of range is undefined behaviour of the operation. */
  function Assign(ty: TypeId, x: int): Option<int> {
    match ty
    case NoType => None
    case I1 => Some(Bool(x != 0))
    case I8 => Some((x + 0x80) % 0x100 - 0x80)
    case I16 => Some((x + 0x8000) % 0x1_0000 - 0x8000)
    case _ => if InRange(ty, x) then Some(x) else None
  }

  /** eval_binary_operation, branch for branch; None stands for a failed assertion or undefined behaviour. */
  function Eval(op: BinOp, ty: TypeId, l: int, r: int): Option<int> {
    match op
    case ADD => Assign(ty, l + r)
    case SUB => Assign(ty, l - r)
    case MUL => Assign(ty, l * r)
    case DIV => if r == 0 then None else Assign(ty, TruncDiv(l, r))
    case SHR => if r >= Digits(ty) || r < 0 then None else Assign(ty, l / Pow2(r))
    case XOR => Assign(ty, BitXor(l, r))
    case EQ => Assign(ty, Bool(l == r))
    case LE => Assign(ty, Bool(l < r))
    case GE => Assign(ty, Bool(l > r))
  }

  // ---- what the operations mean ----

  /** `v` is the value of the type that stands for the integer `x`. */
  predicate Stands(ty: TypeId, x: int, v: int) {
    InRange(ty, v) && if ty == I1 then v == Bool(x != 0) else (v - x) % Modulus(ty) == 0
  }

  /** The quotient leaves a remainder smaller than the divisor, with the sign of the dividend. */
  predicate IsQuotient(a: int, b: int, q: int) {
    var rem := a - q * b;
    b != 0 && (if a >= 0 then 0 <= rem else rem <= 0) && -Abs(b) < rem < Abs(b)
  }

  function Abs(x: int): int {
    if x < 0 then -x else x
  }

  /** Value `v` is a result of the operation at the type. */
  ghost predicate Means(op: BinOp, ty: TypeId, l: int, r: int, v: int) {
    match op
    case ADD => Stands(ty, l + r, v)
    case SUB => Stands(ty, l - r, v)
    case MUL => Stands(ty, l * r, v)
    case DIV => exists q :: IsQuotient(l, r, q) && Stands(ty, q, v)
    case SHR => 0 <= r && exists q :: IsShift(l, r, q) && Stands(ty, q, v)
    case XOR => Stands(ty, BitXor(l, r), v)
    case EQ => v == Bool(l == r)
    case LE => v == Bool(l <= r)
    case GE => v == Bool(l >= r)
  }

  predicate IsShift(a: int, n: nat, q: int) {
    q * Pow2(n) <= a < (q + 1) * Pow2(n)
  }

  lemma SameResidue(m: int, x: int, v: int, w: int)
    requires m > 0 && (v - x) % m == 0 && (w - x) % m == 0 && -(m / 2) <= v < m - m / 2 && -(m / 2) <= w < m - m / 2
    ensures v == w
  {
    var p, q := (v - x) / m, (w - x) / m;
    assert v - w == (p - q) * m;
    MultipleBelow(p - q, m);
  }

  lemma StandsUnique(ty: TypeId, x: int, v: int, w: int)
    requires Stands(ty, x, v) && Stands(ty, x, w)
    ensures v == w
  {
    if ty != NoType && ty != I1 {
      SameResidue(Modulus(ty), x, v, w);
    }
  }

  lemma AssignStands(ty: TypeId, x: int)
    ensures Assign(ty, x).Some? ==> Stands(ty, x, Assign(ty, x).value)
  {
  }

  lemma DivideFacts(a: nat, b: nat)
    requires b > 0
    ensures 0 <= a - (a / b) * b < b
  {
  }

  lemma TruncDivIsQuotient(a: int, b: int)
    requires b != 0
    ensures IsQuotient(a, b, TruncDiv(a, b))
  {
    var m, n := Abs(a), Abs(b);
    DivideFacts(m, n);
    var p := m / n;
    assert TruncDiv(a, b) == if (a < 0) == (b < 0) then p else -p;
    assert TruncDiv(a, b) * b == if a < 0 then -(p * n) else p * n;
  }

  lemma MultipleBelow(k: int, n: int)
    requires n > 0 && -n < k * n < n
    ensures k == 0
  {
  }

  lemma QuotientUnique(a: int, b: int, p: int, q: int)
    requires IsQuotient(a, b, p) && IsQuotient(a, b, q)
    ensures p == q
  {
    // both remainders have the sign of a, so they differ by less than |b|
    var n := Abs(b);
    assert (a - q * b) - (a - p * b) == (p - q) * b;
    assert (p - q) * b == (if b > 0 then p - q else q - p) * n;
    MultipleBelow(if b > 0 then p - q else q - p, n);
  }

  lemma ShiftIsShift(a: int, n: nat)
    ensures IsShift(a, n, a / Pow2(n))
  {
    var p := Pow2(n);
    assert a == (a / p) * p + a % p;
    assert (a / p + 1) * p == (a / p) * p + p;
  }

  lemma ShiftUnique(a: int, n: nat, q: int, r: int)
    requires IsShift(a, n, q) && IsShift(a, n, r)
    ensures q == r
  {
    var p := Pow2(n);
    assert (q + 1) * p == q * p + p && (r + 1) * p == r * p + p;
    assert (q - r) * p == q * p - r * p;
    MultipleBelow(q - r, p);
  }

  /** An operation has at most one result. */
  lemma MeansUnique(op: BinOp, ty: TypeId, l: int, r: int, v: int, w: int)
    requires Means(op, ty, l, r, v) && Means(op, ty, l, r, w)
    ensures v == w
  {
    hide Stands, IsQuotient, IsShift, BitXor;
    match op
    case ADD => StandsUnique(ty, l + r, v, w);
    case SUB => StandsUnique(ty, l - r, v, w);
    case MUL => StandsUnique(ty, l * r, v, w);
    case DIV =>
      var p :| IsQuotient(l, r, p) && Stands(ty, p, v);
      var q :| IsQuotient(l, r, q) && Stands(ty, q, w);
      QuotientUnique(l, r, p, q);
      StandsUnique(ty, p, v, w);
    case SHR =>
      var p :| IsShift(l, r, p) && Stands(ty, p, v);
      var q :| IsShift(l, r, q) && Stands(ty, q, w);
      ShiftUnique(l, r, p, q);
      StandsUnique(ty, p, v, w);
    case XOR => StandsUnique(ty, BitXor(l, r), v, w);
    case EQ =>
    case LE =>
    case GE =>
  }

  /** Whatever the evaluator returns for the arithmetic operations and for equality is what the operation
      means at its type. */
  lemma EvalMeans(op: BinOp, ty: TypeId, l: int, r: int)
    requires Eval(op, ty, l, r).Some? && op != LE && op != GE
    ensures Means(op, ty, l, r, Eval(op, ty, l, r).value) && InRange(ty, Eval(op, ty, l, r).value)
  {
    match op
    case ADD => AssignStands(ty, l + r);
    case SUB => AssignStands(ty, l - r);
    case MUL => AssignStands(ty, l * r);
    case DIV =>
      TruncDivIsQuotient(l, r);
      AssignStands(ty, TruncDiv(l, r));
    case SHR =>
      ShiftIsShift(l, r);
      AssignStands(ty, l / Pow2(r));
    case XOR => AssignStands(ty, BitXor(l, r));
    case EQ =>
  }

  /** The order comparisons are evaluated as strict ones: the result is what LE and GE mean if and only if
      the operands differ. For equal operands, say 1 and 1, it is wrong. */
  lemma OrderMeansIffDifferent(op: BinOp, ty: TypeId, l: int, r: int)
    requires (op == LE || op == GE) && ty != NoType
    ensures Eval(op, ty, l, r).Some?
    ensures Means(op, ty, l, r, Eval(op, ty, l, r).value) <==> l != r
    ensures !Means(LE, I32, 1, 1, Eval(LE, I32, 1, 1).value)
  {
  }

  /** The evaluator returns what the operation means, except for order comparisons of equal operands. */
  lemma EvalMeansIff(op: BinOp, ty: TypeId, l: int, r: int, v: int)
    requires Eval(op, ty, l, r).Some?
    ensures (op != LE && op != GE) || l != r ==> (Means(op, ty, l, r, v) <==> v == Eval(op, ty, l, r).value)
    ensures (op == LE || op == GE) && l == r ==> !(Means(op, ty, l, r, v) && v == Eval(op, ty, l, r).value)
  {
    hide BitXor;
    if op != LE && op != GE {
      EvalMeans(op, ty, l, r);
      if Means(op, ty, l, r, v) {
        MeansUnique(op, ty, l, r, v, Eval(op, ty, l, r).value);
      }
    }
  }

  // ---- when there is a result ----

  /** The wide types have no result for a sum, difference or product out of their range. */
  predicate NoOverflow(ty: TypeId, x: int) {
    && (ty == I32 ==> -0x8000_0000 <= x < 0x8000_0000)
    && (ty == I64 ==> -0x8000_0000_0000_0000 <= x < 0x8000_0000_0000_0000)
  }

  predicate IsLeast(ty: TypeId, x: int) {
    (ty == I32 && x == -0x8000_0000) || (ty == I64 && x == -0x8000_0000_0000_0000)
  }

  /** Shifts go up to the number of value bits, exclusive. */
  predicate ShiftAllowed(ty: TypeId, n: int) {
    0 <= n && match ty
    case NoType => false
    case I1 => n < 1
    case I8 => n < 7
    case I16 => n < 15
    case I32 => n < 31
    case I64 => n < 63
  }

  /** Exactly when two constants of the type are evaluated. */
  lemma EvalDefinedIff(op: BinOp, ty: TypeId, l: int, r: int)
    requires InRange(ty, l) && InRange(ty, r)
    ensures Eval(op, ty, l, r).Some? <==> match op
      case ADD => NoOverflow(ty, l + r)
      case SUB => NoOverflow(ty, l - r)
      case MUL => NoOverflow(ty, l * r)
      case DIV => r != 0 && !(IsLeast(ty, l) && r == -1)
      case SHR => ShiftAllowed(ty, r)
      case _ => true
  {
    hide BitXor, TruncDiv, Pow2;
    match op
    case DIV =>
      if r != 0 {
        QuotientRange(l, r);
        QuotientFits(ty, l, r, TruncDiv(l, r));
      }
    case SHR =>
      if r >= 0 {
        ShiftRange(l, r);
      }
    case XOR =>
      if ty == I32 {
        Pow2Is();
        XorRange(l, r, 31);
      } else if ty == I64 {
        Pow2Is();
        XorRange(l, r, 63);
      }
    case _ =>
  }

  lemma TimesAtLeast(p: nat, n: nat, k: nat)
    requires n >= k
    ensures p * n >= p * k
  {
  }

  lemma QuotientAtMost(m: nat, n: nat)
    requires n >= 1
    ensures 0 <= m / n <= m && (n >= 2 ==> 2 * (m / n) <= m) && m / 1 == m
  {
    DivideFacts(m, n);
    TimesAtLeast(m / n, n, if n >= 2 then 2 else 1);
  }

  /** A quotient is no larger than the dividend, and half of it if the divisor is neither 1 nor -1. */
  lemma QuotientRange(a: int, b: int)
    requires b != 0
    ensures b == 1 ==> TruncDiv(a, b) == a
    ensures b == -1 ==> TruncDiv(a, b) == -a
    ensures b != 1 && b != -1 ==> 2 * Abs(TruncDiv(a, b)) <= Abs(a)
  {
    QuotientAtMost(Abs(a), Abs(b));
  }

  lemma QuotientFits(ty: TypeId, l: int, r: int, q: int)
    requires InRange(ty, l) && InRange(ty, r) && r != 0 && (r == 1 ==> q == l) && (r == -1 ==> q == -l)
    requires r != 1 && r != -1 ==> 2 * Abs(q) <= Abs(l)
    ensures Assign(ty, q).Some? <==> !(IsLeast(ty, l) && r == -1)
  {
  }

  lemma FloorIs(a: int, p: nat, q: int)
    requires p >= 1 && q * p <= a < q * p + p
    ensures a / p == q
  {
    var d := a / p;
    assert a == d * p + a % p;
    assert (d - q) * p == d * p - q * p;
    MultipleBelow(d - q, p);
  }

  lemma FloorRange(a: int, p: nat)
    requires p >= 1
    ensures if a < 0 then a <= a / p < 0 else 0 <= a / p <= a
  {
    if a >= 0 {
      QuotientAtMost(a, p);
    } else {
      var k := (-a - 1) / p;
      QuotientAtMost(-a - 1, p);
      DivideFacts(-a - 1, p);
      assert (-k - 1) * p == -(k * p) - p;
      FloorIs(a, p, -k - 1);
    }
  }

  lemma ShiftRange(a: int, n: nat)
    ensures if a < 0 then a <= a / Pow2(n) < 0 else 0 <= a / Pow2(n) <= a
  {
    FloorRange(a, Pow2(n));
  }

  lemma {:induction false} XorRange(a: int, b: int, n: nat)
    requires -Pow2(n) <= a < Pow2(n) && -Pow2(n) <= b < Pow2(n)
    ensures -Pow2(n) <= BitXor(a, b) < Pow2(n)
    decreases n
  {
    if !((a == 0 || a == -1) && (b == 0 || b == -1)) {
      XorRange(a / 2, b / 2, n - 1);
    }
  }

  lemma {:induction false} Pow2Sum(m: nat, n: nat)
    ensures Pow2(m + n) == Pow2(m) * Pow2(n)
  {
    if m > 0 {
      Pow2Sum(m - 1, n);
    }
  }

  lemma Pow2Small()
    ensures Pow2(7) == 0x80 && Pow2(8) == 0x100 && Pow2(15) == 0x8000 && Pow2(16) == 0x1_0000
  {
    assert Pow2(1) == 2 && Pow2(2) == 4 && Pow2(3) == 8 && Pow2(4) == 16;
    Pow2Sum(3, 4);
    Pow2Sum(4, 4);
    Pow2Sum(7, 8);
    Pow2Sum(8, 8);
  }

  lemma Pow2Is()
    ensures Pow2(31) == 0x8000_0000 && Pow2(63) == 0x8000_0000_0000_0000
  {
    hide Pow2;
    Pow2Small();
    Pow2Sum(15, 16);
    Pow2Sum(16, 16);
    Pow2Sum(31, 32);
  }

  // ---- the exclusive or, bit by bit ----

  function Bit(x: int, k: nat): int
    decreases k
  {
    if k == 0 then x % 2 else Bit(x / 2, k - 1)
  }

  /** Every bit of the result is the exclusive or of the operands' bits, sign bits included. */
  lemma {:induction false} BitXorBits(a: int, b: int, k: nat)
    ensures Bit(BitXor(a, b), k) == (Bit(a, k) + Bit(b, k)) % 2
    decreases k
  {
    var x := BitXor(a, b);
    if (a == 0 || a == -1) && (b == 0 || b == -1) {
      BitOfSign(a, k);
      BitOfSign(b, k);
      BitOfSign(x, k);
    } else {
      assert x / 2 == BitXor(a / 2, b / 2) && x % 2 == (a % 2 + b % 2) % 2;
      if k > 0 {
        BitXorBits(a / 2, b / 2, k - 1);
      }
    }
  }

  lemma {:induction false} BitOfSign(x: int, k: nat)
    requires x == 0 || x == -1
    ensures Bit(x, k) == -x
  {
    if k > 0 {
      BitOfSign(x, k - 1);
    }
  }
}
