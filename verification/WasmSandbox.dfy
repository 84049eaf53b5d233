/** The WASM sandbox's interpreter: one function body run over a bounded value stack and 64
    locals. `Panicked` is a local index out of range in the source. */
module WasmSandbox {

  import Leb128

  const MAX_STACK: nat := 256
  const MAX_LOCALS: nat := 64
  const MAX_CALL_DEPTH: nat := 16

  /** An `i32`: operations wrap, comparisons and division are signed. */
  type I32 = x: int | -0x8000_0000 <= x < 0x8000_0000
  type Code = seq<bv8>

  datatype Error =
    | FunctionNotFound | StackOverflow | StackUnderflow | CallDepthExceeded | DivisionByZero | Trap
    | Unsupported(op: bv8)

  datatype Outcome = Done(value: I32) | Failed(error: Error) | Panicked

  /** The bodies, and how many imported host functions come before them. */
  datatype Module = Module(imports: nat, bodies: seq<Code>)

  /** Where a body's execution stands. */
  datatype Frame = Frame(locals: seq<I32>, stack: seq<I32>, pc: nat)

  /** What one instruction does. */
  datatype Effect = Next(frame: Frame) | Invoke(func: bv32, frame: Frame) | Halt(outcome: Outcome)

  // ── Arithmetic ─────────────────────────────────────────────────────────────

  const U32: nat := 0x1_0000_0000

  function Flag(b: bool): I32 {
    if b then 1 else 0
  }

  /** The one `i32` congruent to a number modulo 2^32. */
  function Wrap(n: int): (r: I32)
    ensures (n - r) % U32 == 0
  {
    var m := n % U32;
    if m >= 0x8000_0000 then m - U32 else m
  }

  lemma WrapIs(n: int, r: I32)
    requires (n - r) % U32 == 0
    ensures Wrap(n) == r
  {
    var k, l := (n - r) / U32, (n - Wrap(n)) / U32;
    assert n - r == k * U32 && n - Wrap(n) == l * U32;
    assert Wrap(n) - r == (k - l) * U32;
  }

  function Abs(n: int): nat {
    if n < 0 then -n else n
  }

  function Ratio(n: nat, d: nat): (q: int)
    requires d > 0
    ensures 0 <= q && q * d <= n < q * d + d
  {
    n / d
  }

  /** Division truncating toward zero; the least number by -1 wraps to itself. */
  function Divide(a: I32, b: I32): I32
    requires b != 0
  {
    Wrap(if (a < 0) == (b < 0) then Ratio(Abs(a), Abs(b)) else -Ratio(Abs(a), Abs(b)))
  }

  /** The quotient leaves a remainder smaller than the divisor, with the dividend's sign. */
  lemma DivideTruncates(a: I32, b: I32)
    requires b != 0 && !(a == -0x8000_0000 && b == -1)
    ensures var r := a - Divide(a, b) * b;
            Abs(r) < Abs(b) && (r == 0 || (r < 0 <==> a < 0))
  {
    hide Divide, Ratio;
    var q := Ratio(Abs(a), Abs(b));
    DivideIs(a, b);
    SignedProduct(q, b, a < 0);
  }

  lemma DivideIs(a: I32, b: I32)
    requires b != 0 && !(a == -0x8000_0000 && b == -1)
    ensures var q := Ratio(Abs(a), Abs(b));
            Divide(a, b) == if (a < 0) == (b < 0) then q else -q
  {
    hide Wrap, Ratio;
    var q := Ratio(Abs(a), Abs(b));
    Factors(q, Abs(b));
    var signed := if (a < 0) == (b < 0) then q else -q;
    WrapIs(signed, signed);
  }

  lemma Factors(q: nat, d: nat)
    requires d >= 1
    ensures q <= q * d && (d >= 2 ==> 2 * q <= q * d)
  {
    assert q * d == q + q * (d - 1);
    if d >= 2 { assert q * d == 2 * q + q * (d - 2); }
  }

  lemma SignedProduct(q: int, b: int, minus: bool)
    ensures (if minus == (b < 0) then q else -q) * b == if minus then -(q * Abs(b)) else q * Abs(b)
  {
    assert -q * b == -(q * b) && q * -b == -(q * b);
  }

  lemma LeastByMinusOne()
    ensures Divide(-0x8000_0000, -1) == -0x8000_0000
  {
  }

  function Power2(n: nat): (r: nat)
    ensures r >= 1
  {
    if n == 0 then 1 else 2 * Power2(n - 1)
  }

  function ShiftLeft(a: I32, b: I32): I32 {
    Wrap(a * Power2(b % 32))
  }

  /** The word as an unsigned number, divided. */
  function ShiftRight(a: I32, b: I32): I32 {
    Wrap(a % U32 / Power2(b % 32))
  }

  function ShiftRightSigned(a: I32, b: I32): I32 {
    ShrinksInside(a, Power2(b % 32));
    a / Power2(b % 32)
  }

  lemma ShrinksInside(a: I32, d: nat)
    requires d >= 1
    ensures -0x8000_0000 <= a / d < 0x8000_0000
  {
    var q, r := a / d, a % d;
    assert a == q * d + r;
    assert q >= 0 ==> q * d >= q;
    assert q < 0 ==> q * d <= q;
  }

  /** Each bit of the result from the two bits at its place, `one` telling which pairs give 1. */
  function Bitwise(one: (bool, bool) -> bool, a: int, b: int, n: nat): (r: nat)
    ensures r < Power2(n)
    decreases n
  {
    if n == 0 then 0
    else 2 * Bitwise(one, a / 2, b / 2, n - 1) + if one(a % 2 == 1, b % 2 == 1) then 1 else 0
  }

  function BitAnd(a: I32, b: I32): I32 {
    Wrap(Bitwise((x, y) => x && y, a, b, 32))
  }

  function BitOr(a: I32, b: I32): I32 {
    Wrap(Bitwise((x, y) => x || y, a, b, 32))
  }

  function BitXor(a: I32, b: I32): I32 {
    Wrap(Bitwise((x, y) => x != y, a, b, 32))
  }

  /** Bit `k` of a number in two's complement. */
  predicate BitAt(x: int, k: nat)
    decreases k
  {
    if k == 0 then x % 2 == 1 else BitAt(x / 2, k - 1)
  }

  lemma {:induction false} BitwiseAt(one: (bool, bool) -> bool, a: int, b: int, n: nat, k: nat)
    requires k < n
    ensures BitAt(Bitwise(one, a, b, n), k) == one(BitAt(a, k), BitAt(b, k))
    decreases n
  {
    var q := Bitwise(one, a / 2, b / 2, n - 1);
    var r := 2 * q + if one(a % 2 == 1, b % 2 == 1) then 1 else 0;
    assert r % 2 == (if one(a % 2 == 1, b % 2 == 1) then 1 else 0) && r / 2 == q;
    if k > 0 {
      BitwiseAt(one, a / 2, b / 2, n - 1, k - 1);
    }
  }

  /** Adding a multiple of 2^m moves no bit below `m`. */
  lemma {:induction false} BitsBelow(x: int, j: int, m: nat, k: nat)
    requires k < m
    ensures BitAt(x + j * Power2(m), k) == BitAt(x, k)
    decreases k
  {
    Halves(x, j * Power2(m - 1));
    assert j * Power2(m) == 2 * (j * Power2(m - 1));
    if k > 0 {
      BitsBelow(x / 2, j, m - 1, k - 1);
    }
  }

  lemma Halves(x: int, y: int)
    ensures (x + 2 * y) / 2 == x / 2 + y && (x + 2 * y) % 2 == x % 2
  {
  }

  lemma Power32()
    ensures Power2(32) == U32 && Power2(31) == 0x8000_0000
  {
    assert Power2(8) == 0x100;
    assert Power2(16) == 0x1_0000;
    assert Power2(24) == 0x100_0000;
  }

  lemma WrapBits(n: int, k: nat)
    requires k < 32
    ensures BitAt(Wrap(n), k) == BitAt(n, k)
  {
    hide Power2, BitAt;
    Power32();
    var j := (Wrap(n) - n) / U32;
    assert Wrap(n) == n + j * U32;
    BitsBelow(n, j, 32, k);
  }

  /** `and`, `or` and `xor` work bit by bit. */
  lemma BitwiseBits(a: I32, b: I32, k: nat)
    requires k < 32
    ensures BitAt(BitAnd(a, b), k) == (BitAt(a, k) && BitAt(b, k))
    ensures BitAt(BitOr(a, b), k) == (BitAt(a, k) || BitAt(b, k))
    ensures BitAt(BitXor(a, b), k) == (BitAt(a, k) != BitAt(b, k))
  {
    hide Bitwise, BitAt, Wrap;
    BitwiseAt((x, y) => x && y, a, b, 32, k);
    BitwiseAt((x, y) => x || y, a, b, 32, k);
    BitwiseAt((x, y) => x != y, a, b, 32, k);
    WrapBits(Bitwise((x, y) => x && y, a, b, 32), k);
    WrapBits(Bitwise((x, y) => x || y, a, b, 32), k);
    WrapBits(Bitwise((x, y) => x != y, a, b, 32), k);
  }

  lemma {:induction false} TimesPower(x: int, n: nat, k: nat)
    ensures BitAt(x * Power2(n), k) == (k >= n && BitAt(x, k - n))
    decreases n
  {
    if n > 0 {
      Halves(0, x * Power2(n - 1));
      assert x * Power2(n) == 2 * (x * Power2(n - 1));
      if k > 0 {
        TimesPower(x, n - 1, k - 1);
      }
    }
  }

  lemma {:induction false} OverPower(x: int, n: nat, k: nat)
    ensures BitAt(x / Power2(n), k) == BitAt(x, k + n)
    decreases n
  {
    if n > 0 {
      HalfFirst(x, Power2(n - 1));
      OverPower(x / 2, n - 1, k);
    }
  }

  lemma HalfFirst(x: int, d: nat)
    requires d >= 1
    ensures x / (2 * d) == x / 2 / d
  {
    var q, r := x / 2 / d, x / 2 % d;
    assert x / 2 == q * d + r && x == 2 * (x / 2) + x % 2;
    assert x == q * (2 * d) + (2 * r + x % 2) && 0 <= 2 * r + x % 2 < 2 * d;
    QuotientIs(x, 2 * d, q);
  }

  lemma QuotientIs(x: int, d: nat, q: int)
    requires d >= 1 && q * d <= x < q * d + d
    ensures x / d == q
  {
    var p := x / d;
    assert p * d <= x < p * d + d;
    assert p < q ==> (p + 1) * d <= q * d;
    assert p > q ==> (q + 1) * d <= p * d;
  }

  /** The bits from the sign bit up all show the sign. */
  lemma {:induction false} SignShows(x: int, m: nat, k: nat)
    requires 0 <= x + Power2(m) && x < Power2(m) && k >= m
    ensures BitAt(x, k) == (x < 0)
    decreases k
  {
    if k > 0 {
      if m > 0 {
        SignShows(x / 2, m - 1, k - 1);
      } else {
        SignShows(x / 2, 0, k - 1);
      }
    }
  }

  /** Shifts move bits by the amount modulo 32; an unsigned shift right brings in zeros, a signed
      one the sign. */
  lemma ShiftBits(a: I32, b: I32, k: nat)
    requires k < 32
    ensures var n := b % 32;
            && BitAt(ShiftLeft(a, b), k) == (k >= n && BitAt(a, k - n))
            && BitAt(ShiftRight(a, b), k) == (k + n < 32 && BitAt(a, k + n))
            && BitAt(ShiftRightSigned(a, b), k) == if k + n < 32 then BitAt(a, k + n) else a < 0
  {
    hide BitAt, Power2, Wrap;
    var n := b % 32;
    Power32();
    TimesPower(a, n, k);
    WrapBits(a * Power2(n), k);
    OverPower(a % U32, n, k);
    WrapBits(a % U32 / Power2(n), k);
    OverPower(a, n, k);
    UnsignedBits(a, k + n);
    if k + n >= 32 {
      SignShows(a, 31, k + n);
    }
  }

  lemma UnsignedBits(a: I32, k: nat)
    ensures BitAt(a % U32, k) == (k < 32 && BitAt(a, k))
  {
    hide BitAt, Power2;
    Power32();
    if k < 32 {
      var j := a / U32;
      assert a % U32 + j * U32 == a;
      BitsBelow(a % U32, j, 32, k);
    } else {
      SignShows(a % U32, 32, k);
    }
  }

  /** A decoded constant: the word's two's complement value. */
  function ToInt(v: bv32): (r: I32)
    ensures (v as int - r) % U32 == 0
  {
    Wrap(v as int)
  }

  /** The two-operand instructions without an error case. */
  predicate IsBinary(op: bv8) {
    op in {0x46, 0x47, 0x48, 0x4a, 0x4c, 0x4e, 0x6a, 0x6b, 0x6c, 0x71, 0x72, 0x73, 0x74, 0x75, 0x76}
  }

  function Binary(op: bv8, a: I32, b: I32): I32 {
    match op
    case 0x46 => Flag(a == b)
    case 0x47 => Flag(a != b)
    case 0x48 => Flag(a < b)
    case 0x4a => Flag(a > b)
    case 0x4c => Flag(a <= b)
    case 0x4e => Flag(a >= b)
    case 0x6a => Wrap(a + b)
    case 0x6b => Wrap(a - b)
    case 0x6c => Wrap(a * b)
    case 0x71 => BitAnd(a, b)
    case 0x72 => BitOr(a, b)
    case 0x73 => BitXor(a, b)
    case 0x74 => ShiftLeft(a, b)
    case 0x75 => ShiftRight(a, b)
    case _ => ShiftRightSigned(a, b)
  }

  // ── One instruction ────────────────────────────────────────────────────────

  function Top(stack: seq<I32>): I32 {
    if stack == [] then 0 else stack[|stack| - 1]
  }

  function Pushed(f: Frame, v: I32): Effect {
    if |f.stack| >= MAX_STACK then Halt(Failed(StackOverflow)) else Next(f.(stack := f.stack + [v]))
  }

  /** Replaces the top `n` values by one. */
  function Reduced(f: Frame, n: nat, v: I32): Effect
    requires n <= |f.stack|
  {
    Pushed(f.(stack := f.stack[..|f.stack| - n]), v)
  }

  const UNDERFLOW: Effect := Halt(Failed(StackUnderflow))

  function Index(v: bv32): nat {
    v as nat
  }

  /** The end of the enclosing block, or its `else`, from `pc` on. */
  function Skip(code: Code, pc: nat, depth: nat): (r: nat)
    ensures r >= pc
    decreases |code| - pc
  {
    if pc >= |code| then pc
    else
      var op := code[pc];
      if op in {0x02, 0x03, 0x04} then Skip(code, pc + 2, depth + 1)
      else if op == 0x05 && depth == 0 then pc + 1
      else if op == 0x0b then (if depth == 0 then pc + 1 else Skip(code, pc + 1, depth - 1))
      else if op in {0x10, 0x0c, 0x0d, 0x20, 0x21, 0x22} then
        Skip(code, pc + 1 + Leb128.UlebFrom(code, pc + 1, 0, 0).1, depth)
      else if op == 0x41 then Skip(code, pc + 1 + Leb128.SlebFrom(code, pc + 1, 0, 0).1, depth)
      else Skip(code, pc + 1, depth)
  }

  /** `g` is the frame past the opcode. */
  function Variable(code: Code, op: bv8, g: Frame): (r: Effect)
    requires |g.locals| == MAX_LOCALS
    ensures r.Next? ==> r.frame.pc > g.pc && |r.frame.locals| == MAX_LOCALS
  {
    var (i, k) := Leb128.UlebFrom(code, g.pc, 0, 0);
    var h := g.(pc := g.pc + k);
    var n := |g.stack|;
    if op == 0x20 then
      if n >= MAX_STACK then Halt(Failed(StackOverflow))
      else if Index(i) >= MAX_LOCALS then Halt(Panicked)
      else Pushed(h, g.locals[Index(i)])
    else if n == 0 then UNDERFLOW
    else if Index(i) >= MAX_LOCALS then Halt(Panicked)
    else
      var kept := h.(locals := g.locals[Index(i) := g.stack[n - 1]]);
      Next(if op == 0x21 then kept.(stack := g.stack[..n - 1]) else kept)
  }

  function Control(code: Code, op: bv8, g: Frame): (r: Effect)
    ensures r.Next? ==> r.frame.pc >= g.pc && r.frame.locals == g.locals
    ensures r.Invoke? ==> r.frame.pc >= g.pc && r.frame.locals == g.locals && |r.frame.stack| < MAX_STACK
  {
    var n := |g.stack|;
    match op
    case 0x00 => Halt(Failed(Trap))
    case 0x01 => Next(g)
    case 0x02 => Next(g.(pc := g.pc + 1))
    case 0x03 => Next(g.(pc := g.pc + 1))
    case 0x04 =>
      if n == 0 then UNDERFLOW
      else
        var h := g.(stack := g.stack[..n - 1], pc := g.pc + 1);
        Next(if g.stack[n - 1] == 0 then h.(pc := Skip(code, h.pc, 0)) else h)
    case 0x05 => Next(g.(pc := Skip(code, g.pc, 0)))
    case 0x0b => Halt(Done(Top(g.stack)))
    case 0x0c => Halt(Done(Top(g.stack)))
    case 0x0d =>
      if n == 0 then UNDERFLOW
      else if g.stack[n - 1] != 0 then Halt(Done(Top(g.stack[..n - 1])))
      else Next(g.(stack := g.stack[..n - 1], pc := g.pc + Leb128.UlebFrom(code, g.pc, 0, 0).1))
    case 0x0f => Halt(Done(Top(g.stack)))
    case 0x10 =>
      var (func, k) := Leb128.UlebFrom(code, g.pc, 0, 0);
      if n >= MAX_STACK then Halt(Failed(StackOverflow)) else Invoke(func, g.(pc := g.pc + k))
    case _ => Halt(Failed(Unsupported(op)))
  }

  function Constant(code: Code, g: Frame): (r: Effect)
    ensures r.Next? ==> r.frame.pc >= g.pc && r.frame.locals == g.locals
    ensures !r.Invoke?
  {
    var (v, k) := Leb128.SlebFrom(code, g.pc, 0, 0);
    Pushed(g.(pc := g.pc + k), ToInt(v))
  }

  function Numeric(code: Code, op: bv8, g: Frame): (r: Effect)
    ensures r.Next? ==> r.frame.pc >= g.pc && r.frame.locals == g.locals
    ensures !r.Invoke?
  {
    var n := |g.stack|;
    if op == 0x41 then Constant(code, g)
    else if op == 0x45 then if n == 0 then UNDERFLOW else Reduced(g, 1, Flag(g.stack[n - 1] == 0))
    else if op == 0x1a then if n == 0 then UNDERFLOW else Next(g.(stack := g.stack[..n - 1]))
    else if op == 0x1b then
      if n < 3 then UNDERFLOW
      else Reduced(g, 3, if g.stack[n - 1] != 0 then g.stack[n - 3] else g.stack[n - 2])
    else if n < 2 then UNDERFLOW
    else if op == 0x6d then
      if g.stack[n - 1] == 0 then Halt(Failed(DivisionByZero))
      else Reduced(g, 2, Divide(g.stack[n - 2], g.stack[n - 1]))
    else Reduced(g, 2, Binary(op, g.stack[n - 2], g.stack[n - 1]))
  }

  predicate IsVariable(op: bv8) {
    op in {0x20, 0x21, 0x22}
  }

  predicate IsNumeric(op: bv8) {
    op in {0x1a, 0x1b, 0x41, 0x45, 0x6d} || IsBinary(op)
  }

  function Step(code: Code, f: Frame): (r: Effect)
    requires f.pc < |code| && |f.locals| == MAX_LOCALS
    ensures r.Next? ==> r.frame.pc > f.pc && |r.frame.locals| == MAX_LOCALS
    ensures r.Invoke? ==> r.frame.pc > f.pc && |r.frame.locals| == MAX_LOCALS && |r.frame.stack| < MAX_STACK
  {
    var op, g := code[f.pc], f.(pc := f.pc + 1);
    if IsVariable(op) then Variable(code, op, g)
    else if IsNumeric(op) then Numeric(code, op, g)
    else Control(code, op, g)
  }

  // ── Running a function ─────────────────────────────────────────────────────

  /** Runs a body to its end; every step moves `pc` on, every call deepens. */
  function Run(m: Module, code: Code, f: Frame, depth: nat): Outcome
    requires |f.locals| == MAX_LOCALS && depth < MAX_CALL_DEPTH
    decreases MAX_CALL_DEPTH - depth, 0, |code| - f.pc
  {
    if f.pc >= |code| then Done(Top(f.stack))
    else
      match Step(code, f)
      case Halt(o) => o
      case Next(g) => Run(m, code, g, depth)
      case Invoke(func, g) =>
        match CallFunc(m, func, [], depth + 1)
        case Done(v) => Run(m, code, g.(stack := g.stack + [v]), depth)
        case Failed(e) => Failed(e)
        case Panicked => Panicked
  }

  /** Arguments first, the rest zero. */
  function Locals(args: seq<I32>): (r: seq<I32>)
    ensures |r| == MAX_LOCALS
  {
    seq(MAX_LOCALS, i requires 0 <= i < MAX_LOCALS => if i < |args| then args[i] else 0)
  }

  function CallFunc(m: Module, func: bv32, args: seq<I32>, depth: nat): Outcome
    requires depth <= MAX_CALL_DEPTH
    decreases MAX_CALL_DEPTH - depth, 1, 0
  {
    if depth >= MAX_CALL_DEPTH then Failed(CallDepthExceeded)
    else if Index(func) < m.imports then Done(0)
    else if Index(func) - m.imports >= |m.bodies| then Failed(FunctionNotFound)
    else Run(m, m.bodies[Index(func) - m.imports], Frame(Locals(args), [], 0), depth)
  }

  /** The interpreter loop. */
  method Execute(m: Module, func: bv32, args: seq<I32>, depth: nat) returns (o: Outcome)
    requires depth <= MAX_CALL_DEPTH
    ensures o == CallFunc(m, func, args, depth)
    decreases MAX_CALL_DEPTH - depth
  {
    hide Step, Index, Locals;
    if depth >= MAX_CALL_DEPTH {
      return Failed(CallDepthExceeded);
    }
    if Index(func) < m.imports {
      return Done(0);
    }
    if Index(func) - m.imports >= |m.bodies| {
      return Failed(FunctionNotFound);
    }
    var code := m.bodies[Index(func) - m.imports];
    var f := Frame(Locals(args), [], 0);
    while f.pc < |code|
      invariant |f.locals| == MAX_LOCALS && Run(m, code, f, depth) == CallFunc(m, func, args, depth)
      decreases |code| - f.pc
    {
      var effect := Step(code, f);
      match effect
      case Halt(out) => return out;
      case Next(g) => f := g;
      case Invoke(callee, g) =>
        var v := Execute(m, callee, [], depth + 1);
        if !v.Done? {
          return v;
        }
        f := g.(stack := g.stack + [v.value]);
    }
    return Done(Top(f.stack));
  }

  // ── Straight-line expressions ──────────────────────────────────────────────

  datatype Operator = Eq | Ne | LtS | GtS | LeS | GeS | Add | Sub | Mul | And | Or | Xor | Shl | ShrU | ShrS

  /** Operands carry their LEB128 bytes, minimal or padded. */
  datatype Expr =
    | Const(bytes: seq<bv8>)
    | Local(bytes: seq<bv8>)
    | Zero(arg: Expr)
    | Bin(op: Operator, left: Expr, right: Expr)
    | Select(yes: Expr, no: Expr, cond: Expr)

  predicate WellFormed(e: Expr) {
    match e
    case Const(bytes) => Leb128.IsLeb(bytes)
    case Local(bytes) => Leb128.IsLeb(bytes) && Index(Leb128.Unsigned(bytes)) < MAX_LOCALS
    case Zero(arg) => WellFormed(arg)
    case Bin(_, a, b) => WellFormed(a) && WellFormed(b)
    case Select(a, b, c) => WellFormed(a) && WellFormed(b) && WellFormed(c)
  }

  function Opcode(op: Operator): bv8 {
    match op
    case Eq => 0x46
    case Ne => 0x47
    case LtS => 0x48
    case GtS => 0x4a
    case LeS => 0x4c
    case GeS => 0x4e
    case Add => 0x6a
    case Sub => 0x6b
    case Mul => 0x6c
    case And => 0x71
    case Or => 0x72
    case Xor => 0x73
    case Shl => 0x74
    case ShrU => 0x75
    case ShrS => 0x76
  }

  function Meaning(op: Operator, a: I32, b: I32): I32 {
    match op
    case Eq => if a == b then 1 else 0
    case Ne => if a == b then 0 else 1
    case LtS => if a < b then 1 else 0
    case GtS => if b < a then 1 else 0
    case LeS => if b < a then 0 else 1
    case GeS => if a < b then 0 else 1
    case Add => Wrap(a + b)
    case Sub => Wrap(a - b)
    case Mul => Wrap(a * b)
    case And => Wrap(Bitwise((x, y) => x && y, a, b, 32))
    case Or => Wrap(Bitwise((x, y) => x || y, a, b, 32))
    case Xor => Wrap(Bitwise((x, y) => x != y, a, b, 32))
    case Shl => Wrap(a * Power2(b % 32))
    case ShrU => Wrap(a % 0x1_0000_0000 / Power2(b % 32))
    case ShrS => Wrap(a / Power2(b % 32))
  }

  function Eval(e: Expr, locals: seq<I32>): I32
    requires WellFormed(e) && |locals| == MAX_LOCALS
  {
    match e
    case Const(bytes) => ToInt(Leb128.Signed(bytes))
    case Local(bytes) => locals[Index(Leb128.Unsigned(bytes))]
    case Zero(arg) => if Eval(arg, locals) == 0 then 1 else 0
    case Bin(op, a, b) => Meaning(op, Eval(a, locals), Eval(b, locals))
    case Select(a, b, c) => if Eval(c, locals) != 0 then Eval(a, locals) else Eval(b, locals)
  }

  /** The postfix bytes. */
  function Compile(e: Expr): (r: Code)
    ensures |r| >= 1
  {
    match e
    case Const(bytes) => [0x41] + bytes
    case Local(bytes) => [0x20] + bytes
    case Zero(arg) => Compile(arg) + [0x45]
    case Bin(op, a, b) => Compile(a) + Compile(b) + [Opcode(op)]
    case Select(a, b, c) => Compile(a) + Compile(b) + Compile(c) + [0x1b]
  }

  function Max(a: nat, b: nat): nat {
    if a > b then a else b
  }

  /** The most stack an expression uses. */
  function Need(e: Expr): (r: nat)
    ensures r >= 1
  {
    match e
    case Const(_) => 1
    case Local(_) => 1
    case Zero(arg) => Need(arg)
    case Bin(_, a, b) => Max(Need(a), 1 + Need(b))
    case Select(a, b, c) => Max(Need(a), Max(1 + Need(b), 2 + Need(c)))
  }

  function Size(e: Expr): (r: nat)
    ensures r >= 1
  {
    match e
    case Const(_) => 1
    case Local(_) => 1
    case Zero(arg) => 1 + Size(arg)
    case Bin(_, a, b) => 1 + Size(a) + Size(b)
    case Select(a, b, c) => 1 + Size(a) + Size(b) + Size(c)
  }

  ghost predicate Has(code: Code, pc: nat, part: Code) {
    pc + |part| <= |code| && code[pc..pc + |part|] == part
  }

  lemma HasParts(code: Code, pc: nat, a: Code, b: Code)
    requires Has(code, pc, a + b)
    ensures Has(code, pc, a) && Has(code, pc + |a|, b)
  {
    var c := code[pc..pc + |a + b|];
    assert c[..|a|] == a && c[|a|..] == b;
    assert code[pc..pc + |a|] == c[..|a|] && code[pc + |a|..pc + |a| + |b|] == c[|a|..];
  }

  lemma HasByte(code: Code, pc: nat, b: bv8)
    requires Has(code, pc, [b])
    ensures pc < |code| && code[pc] == b
  {
  }

  /** The instruction computes what the operator means. */
  lemma BinaryMeans(op: Operator, a: I32, b: I32)
    ensures IsBinary(Opcode(op)) && Binary(Opcode(op), a, b) == Meaning(op, a, b)
  {
    hide Wrap, Bitwise, Power2;
    if op == ShrS {
      ShrinksInside(a, Power2(b % 32));
      WrapIs(a / Power2(b % 32), a / Power2(b % 32));
    }
  }

  /** The frame after an expression's code. */
  function Grown(f: Frame, v: I32, n: nat): Frame {
    f.(stack := f.stack + [v], pc := f.pc + n)
  }

  lemma ConstStep(code: Code, f: Frame, bytes: seq<bv8>)
    requires Leb128.IsLeb(bytes) && Has(code, f.pc, [0x41] + bytes) && |f.stack| < MAX_STACK && |f.locals| == MAX_LOCALS
    ensures f.pc < |code| && Step(code, f) == Next(Grown(f, ToInt(Leb128.Signed(bytes)), 1 + |bytes|))
  {
    hide Leb128.SlebFrom, Leb128.Signed, Leb128.IsLeb;
    HasParts(code, f.pc, [0x41], bytes);
    HasByte(code, f.pc, 0x41);
    Leb128.SlebDecodes(code, f.pc + 1, bytes);
  }

  lemma LocalStep(code: Code, f: Frame, bytes: seq<bv8>)
    requires Leb128.IsLeb(bytes) && Has(code, f.pc, [0x20] + bytes) && |f.stack| < MAX_STACK
    requires |f.locals| == MAX_LOCALS && Index(Leb128.Unsigned(bytes)) < MAX_LOCALS
    ensures f.pc < |code| && Step(code, f) == Next(Grown(f, f.locals[Index(Leb128.Unsigned(bytes))], 1 + |bytes|))
  {
    hide Leb128.UlebFrom, Leb128.Unsigned, Leb128.IsLeb, Index;
    HasParts(code, f.pc, [0x20], bytes);
    HasByte(code, f.pc, 0x20);
    Leb128.UlebDecodes(code, f.pc + 1, bytes);
  }

  lemma ZeroStep(code: Code, f: Frame, a: I32)
    requires Has(code, f.pc, [0x45]) && |f.locals| == MAX_LOCALS && |f.stack| < MAX_STACK
    ensures f.pc < |code| && Step(code, f.(stack := f.stack + [a])) == Next(Grown(f, if a == 0 then 1 else 0, 1))
  {
    HasByte(code, f.pc, 0x45);
    assert (f.stack + [a])[..|f.stack|] == f.stack;
  }

  lemma BinStep(code: Code, f: Frame, op: Operator, a: I32, b: I32)
    requires Has(code, f.pc, [Opcode(op)]) && |f.locals| == MAX_LOCALS && |f.stack| < MAX_STACK
    ensures f.pc < |code| && Step(code, f.(stack := f.stack + [a] + [b])) == Next(Grown(f, Meaning(op, a, b), 1))
  {
    hide Binary, Meaning;
    HasByte(code, f.pc, Opcode(op));
    BinaryMeans(op, a, b);
    assert (f.stack + [a] + [b])[..|f.stack|] == f.stack;
  }

  lemma SelectStep(code: Code, f: Frame, a: I32, b: I32, c: I32)
    requires Has(code, f.pc, [0x1b]) && |f.locals| == MAX_LOCALS && |f.stack| < MAX_STACK
    ensures f.pc < |code|
    ensures Step(code, f.(stack := f.stack + [a] + [b] + [c])) == Next(Grown(f, if c != 0 then a else b, 1))
  {
    HasByte(code, f.pc, 0x1b);
    assert (f.stack + [a] + [b] + [c])[..|f.stack|] == f.stack;
  }

  lemma RunStep(m: Module, code: Code, f: Frame, g: Frame, depth: nat)
    requires |f.locals| == MAX_LOCALS && depth < MAX_CALL_DEPTH && f.pc < |code| && Step(code, f) == Next(g)
    ensures Run(m, code, f, depth) == Run(m, code, g, depth)
  {
    hide Step;
  }

  /** Running an expression's postfix bytes pushes its value and consumes exactly them. */
  lemma {:induction false} RunsExpression(m: Module, code: Code, f: Frame, depth: nat, e: Expr)
    requires WellFormed(e) && |f.locals| == MAX_LOCALS && depth < MAX_CALL_DEPTH
    requires Has(code, f.pc, Compile(e)) && |f.stack| + Need(e) <= MAX_STACK
    ensures Run(m, code, f, depth) == Run(m, code, Grown(f, Eval(e, f.locals), |Compile(e)|), depth)
    decreases Size(e), 1
  {
    hide Run, Step, Index, Meaning, Leb128.IsLeb, Leb128.Signed, Leb128.Unsigned, Opcode;
    match e
    case Const(bytes) =>
      ConstStep(code, f, bytes);
      RunStep(m, code, f, Grown(f, Eval(e, f.locals), 1 + |bytes|), depth);
    case Local(bytes) =>
      LocalStep(code, f, bytes);
      RunStep(m, code, f, Grown(f, Eval(e, f.locals), 1 + |bytes|), depth);
    case Zero(a) =>
      HasParts(code, f.pc, Compile(a), [0x45]);
      RunsExpression(m, code, f, depth, a);
      var g := f.(pc := f.pc + |Compile(a)|);
      ZeroStep(code, g, Eval(a, f.locals));
      RunStep(m, code, g.(stack := f.stack + [Eval(a, f.locals)]), Grown(g, Eval(e, f.locals), 1), depth);
    case Bin(op, a, b) => RunsBinary(m, code, f, depth, op, a, b);
    case Select(a, b, c) => RunsSelect(m, code, f, depth, a, b, c);
  }

  lemma {:induction false} RunsBoth(m: Module, code: Code, f: Frame, depth: nat, a: Expr, b: Expr)
    requires WellFormed(a) && WellFormed(b) && |f.locals| == MAX_LOCALS && depth < MAX_CALL_DEPTH
    requires Has(code, f.pc, Compile(a) + Compile(b)) && |f.stack| + Max(Need(a), 1 + Need(b)) <= MAX_STACK
    ensures Run(m, code, f, depth)
         == Run(m, code, f.(stack := f.stack + [Eval(a, f.locals)] + [Eval(b, f.locals)],
                            pc := f.pc + |Compile(a) + Compile(b)|), depth)
    decreases Size(a) + Size(b), 2
  {
    hide Run, Step, Eval, Compile, WellFormed, Need;
    HasParts(code, f.pc, Compile(a), Compile(b));
    RunsExpression(m, code, f, depth, a);
    RunsExpression(m, code, Grown(f, Eval(a, f.locals), |Compile(a)|), depth, b);
  }

  lemma {:induction false} RunsBinary(m: Module, code: Code, f: Frame, depth: nat, op: Operator, a: Expr, b: Expr)
    requires WellFormed(Bin(op, a, b)) && |f.locals| == MAX_LOCALS && depth < MAX_CALL_DEPTH
    requires Has(code, f.pc, Compile(Bin(op, a, b))) && |f.stack| + Need(Bin(op, a, b)) <= MAX_STACK
    ensures var e := Bin(op, a, b);
            Run(m, code, f, depth) == Run(m, code, Grown(f, Eval(e, f.locals), |Compile(e)|), depth)
    decreases Size(Bin(op, a, b)), 0
  {
    hide Run, Step, Meaning, Opcode;
    HasParts(code, f.pc, Compile(a) + Compile(b), [Opcode(op)]);
    RunsBoth(m, code, f, depth, a, b);
    var g := f.(pc := f.pc + |Compile(a) + Compile(b)|);
    var x, y := Eval(a, f.locals), Eval(b, f.locals);
    BinStep(code, g, op, x, y);
    RunStep(m, code, g.(stack := f.stack + [x] + [y]), Grown(g, Meaning(op, x, y), 1), depth);
  }

  lemma SelectParts(a: Expr, b: Expr, c: Expr, locals: seq<I32>)
    requires WellFormed(Select(a, b, c)) && |locals| == MAX_LOCALS
    ensures WellFormed(a) && WellFormed(b) && WellFormed(c)
    ensures Compile(Select(a, b, c)) == Compile(a) + Compile(b) + Compile(c) + [0x1b]
    ensures Max(Need(a), 1 + Need(b)) <= Need(Select(a, b, c)) && 2 + Need(c) <= Need(Select(a, b, c))
    ensures Eval(Select(a, b, c), locals) == if Eval(c, locals) != 0 then Eval(a, locals) else Eval(b, locals)
  {
  }

  lemma {:induction false} RunsSelect(m: Module, code: Code, f: Frame, depth: nat, a: Expr, b: Expr, c: Expr)
    requires WellFormed(Select(a, b, c)) && |f.locals| == MAX_LOCALS && depth < MAX_CALL_DEPTH
    requires Has(code, f.pc, Compile(Select(a, b, c))) && |f.stack| + Need(Select(a, b, c)) <= MAX_STACK
    ensures var e := Select(a, b, c);
            Run(m, code, f, depth) == Run(m, code, Grown(f, Eval(e, f.locals), |Compile(e)|), depth)
    decreases Size(Select(a, b, c)), 0
  {
    hide Run, Step, Compile, Need, WellFormed, Eval;
    var ab := Compile(a) + Compile(b);
    SelectParts(a, b, c, f.locals);
    HasParts(code, f.pc, ab + Compile(c), [0x1b]);
    HasParts(code, f.pc, ab, Compile(c));
    RunsBoth(m, code, f, depth, a, b);
    var x, y, z := Eval(a, f.locals), Eval(b, f.locals), Eval(c, f.locals);
    var g := f.(stack := f.stack + [x] + [y], pc := f.pc + |ab|);
    RunsExpression(m, code, g, depth, c);
    var h := f.(pc := g.pc + |Compile(c)|);
    SelectStep(code, h, x, y, z);
    RunStep(m, code, h.(stack := f.stack + [x] + [y] + [z]), Grown(h, if z != 0 then x else y, 1), depth);
  }

  // ── Straight-line programs ─────────────────────────────────────────────────

  /** A value stored in a local, or computed and dropped. */
  datatype Stmt = Assign(bytes: seq<bv8>, value: Expr) | Discard(value: Expr)

  predicate IsStmt(st: Stmt) {
    && WellFormed(st.value) && Need(st.value) <= MAX_STACK
    && (st.Assign? ==> Leb128.IsLeb(st.bytes) && Index(Leb128.Unsigned(st.bytes)) < MAX_LOCALS)
  }

  function CompileStmt(st: Stmt): Code {
    match st
    case Assign(bytes, value) => Compile(value) + ([0x21] + bytes)
    case Discard(value) => Compile(value) + [0x1a]
  }

  /** The locals after a statement. */
  function Effects(st: Stmt, locals: seq<I32>): (r: seq<I32>)
    requires IsStmt(st) && |locals| == MAX_LOCALS
    ensures |r| == MAX_LOCALS
  {
    if st.Assign? then locals[Index(Leb128.Unsigned(st.bytes)) := Eval(st.value, locals)] else locals
  }

  function CompileAll(sts: seq<Stmt>): Code {
    if sts == [] then [] else CompileStmt(sts[0]) + CompileAll(sts[1..])
  }

  function AllEffects(sts: seq<Stmt>, locals: seq<I32>): (r: seq<I32>)
    requires |locals| == MAX_LOCALS && forall i :: 0 <= i < |sts| ==> IsStmt(sts[i])
    ensures |r| == MAX_LOCALS
  {
    if sts == [] then locals else AllEffects(sts[1..], Effects(sts[0], locals))
  }

  lemma SetStep(code: Code, f: Frame, bytes: seq<bv8>, v: I32)
    requires Leb128.IsLeb(bytes) && Has(code, f.pc, [0x21] + bytes)
    requires |f.locals| == MAX_LOCALS && Index(Leb128.Unsigned(bytes)) < MAX_LOCALS
    ensures f.pc < |code|
    ensures Step(code, f.(stack := f.stack + [v])) ==
            Next(f.(locals := f.locals[Index(Leb128.Unsigned(bytes)) := v], pc := f.pc + 1 + |bytes|))
  {
    hide Leb128.UlebFrom, Leb128.Unsigned, Leb128.IsLeb, Index;
    HasParts(code, f.pc, [0x21], bytes);
    HasByte(code, f.pc, 0x21);
    Leb128.UlebDecodes(code, f.pc + 1, bytes);
    assert (f.stack + [v])[..|f.stack|] == f.stack;
  }

  lemma DropStep(code: Code, f: Frame, v: I32)
    requires Has(code, f.pc, [0x1a]) && |f.locals| == MAX_LOCALS
    ensures f.pc < |code| && Step(code, f.(stack := f.stack + [v])) == Next(f.(pc := f.pc + 1))
  {
    HasByte(code, f.pc, 0x1a);
    assert (f.stack + [v])[..|f.stack|] == f.stack;
  }

  /** A statement's bytes have its effect on the locals and leave the stack as it was. */
  lemma RunsStatement(m: Module, code: Code, f: Frame, depth: nat, st: Stmt)
    requires IsStmt(st) && |f.locals| == MAX_LOCALS && depth < MAX_CALL_DEPTH && f.stack == []
    requires Has(code, f.pc, CompileStmt(st))
    ensures Run(m, code, f, depth)
         == Run(m, code, f.(locals := Effects(st, f.locals), pc := f.pc + |CompileStmt(st)|), depth)
  {
    hide Run, Step, Compile, Eval, Need, WellFormed, Leb128.IsLeb, Leb128.Unsigned, Index;
    var e := st.value;
    var v, g := Eval(e, f.locals), f.(pc := f.pc + |Compile(e)|);
    match st {
      case Assign(bytes, _) =>
        HasParts(code, f.pc, Compile(e), [0x21] + bytes);
        RunsExpression(m, code, f, depth, e);
        SetStep(code, g, bytes, v);
        RunStep(m, code, g.(stack := f.stack + [v]),
                f.(locals := Effects(st, f.locals), pc := f.pc + |CompileStmt(st)|), depth);
      case Discard(_) =>
        HasParts(code, f.pc, Compile(e), [0x1a]);
        RunsExpression(m, code, f, depth, e);
        DropStep(code, g, v);
        RunStep(m, code, g.(stack := f.stack + [v]), f.(pc := f.pc + |CompileStmt(st)|), depth);
    }
  }

  lemma {:induction false} RunsProgram(m: Module, code: Code, f: Frame, depth: nat, sts: seq<Stmt>)
    requires |f.locals| == MAX_LOCALS && depth < MAX_CALL_DEPTH && f.stack == []
    requires (forall i :: 0 <= i < |sts| ==> IsStmt(sts[i])) && Has(code, f.pc, CompileAll(sts))
    ensures Run(m, code, f, depth)
         == Run(m, code, f.(locals := AllEffects(sts, f.locals), pc := f.pc + |CompileAll(sts)|), depth)
    decreases |sts|
  {
    hide Run, CompileStmt, Effects, IsStmt;
    if sts != [] {
      HasParts(code, f.pc, CompileStmt(sts[0]), CompileAll(sts[1..]));
      RunsStatement(m, code, f, depth, sts[0]);
      RunsProgram(m, code, f.(locals := Effects(sts[0], f.locals), pc := f.pc + |CompileStmt(sts[0])|), depth, sts[1..]);
    }
  }

  // ── Calls ──────────────────────────────────────────────────────────────────

  /** The locals a call starts with: the arguments in order, and zeros. */
  ghost predicate Starts(locals: seq<I32>, args: seq<I32>) {
    |locals| == 64 && forall i :: 0 <= i < 64 ==> locals[i] == if i < |args| then args[i] else 0
  }

  /** A function whose body is a straight-line program and an expression returns the
      expression's value on the locals the program leaves, starting from the arguments. */
  lemma CallReturnsValue(m: Module, func: bv32, args: seq<I32>, depth: nat, sts: seq<Stmt>, e: Expr, locals: seq<I32>)
    requires WellFormed(e) && Need(e) <= 256 && depth < 16 && Starts(locals, args)
    requires forall i :: 0 <= i < |sts| ==> IsStmt(sts[i])
    requires m.imports <= func as nat < m.imports + |m.bodies|
    requires m.bodies[func as nat - m.imports] == CompileAll(sts) + Compile(e)
    ensures CallFunc(m, func, args, depth) == Done(Eval(e, AllEffects(sts, locals)))
  {
    hide Step, Eval, WellFormed, Need, Compile, CompileAll, AllEffects, IsStmt;
    var code, a := m.bodies[func as nat - m.imports], CompileAll(sts);
    assert Locals(args) == locals;
    var f := Frame(locals, [], 0);
    assert code[0..|code|] == code;
    HasParts(code, 0, a, Compile(e));
    RunsProgram(m, code, f, depth, sts);
    var g := Frame(AllEffects(sts, f.locals), [], |a|);
    RunsExpression(m, code, g, depth, e);
    assert [] + [Eval(e, g.locals)] == [Eval(e, g.locals)];
  }

  /** Calls nest sixteen deep and no deeper, imported functions return 0, and there is no
      function past the last body. */
  lemma CallLimits(m: Module, func: bv32, args: seq<I32>, depth: nat)
    requires depth <= 16
    ensures depth == 16 ==> CallFunc(m, func, args, depth) == Failed(CallDepthExceeded)
    ensures depth < 16 && func as nat < m.imports ==> CallFunc(m, func, args, depth) == Done(0)
    ensures depth < 16 && func as nat >= m.imports + |m.bodies| ==> CallFunc(m, func, args, depth) == Failed(FunctionNotFound)
  {
  }

  /** A call inside a body pushes what the callee, called with no arguments one level deeper,
      returns, or ends with its failure. */
  lemma CallStep(m: Module, code: Code, f: Frame, depth: nat, bytes: seq<bv8>)
    requires |f.locals| == MAX_LOCALS && depth < 16 && |f.stack| < 256
    requires Leb128.IsLeb(bytes) && Has(code, f.pc, [0x10] + bytes)
    ensures var callee := CallFunc(m, Leb128.Unsigned(bytes), [], depth + 1);
            Run(m, code, f, depth) ==
            if callee.Done? then Run(m, code, Grown(f, callee.value, 1 + |bytes|), depth) else callee
  {
    hide Leb128.UlebFrom, Leb128.Unsigned, Leb128.IsLeb, CallFunc, Numeric, Variable, IsBinary, Skip;
    HasParts(code, f.pc, [0x10], bytes);
    HasByte(code, f.pc, 0x10);
    NotNumeric(0x10);
    Leb128.UlebDecodes(code, f.pc + 1, bytes);
    assert Step(code, f) == Invoke(Leb128.Unsigned(bytes), f.(pc := f.pc + 1 + |bytes|));
  }

  // ── Ending early, and choosing ─────────────────────────────────────────────

  /** The value of a stack: its top, or 0. */
  ghost predicate Yields(stack: seq<I32>, v: I32) {
    if stack == [] then v == 0 else v == stack[|stack| - 1]
  }

  /** `end`, `return` and `br` end the function with the value on the stack, whatever follows. */
  lemma EndsEarly(m: Module, code: Code, f: Frame, depth: nat, v: I32)
    requires |f.locals| == MAX_LOCALS && depth < 16 && f.pc < |code| && Yields(f.stack, v)
    requires code[f.pc] in {0x0b, 0x0c, 0x0f}
    ensures Run(m, code, f, depth) == Done(v)
  {
    hide Numeric, Variable, Skip, IsBinary;
    NotNumeric(code[f.pc]);
    assert Step(code, f) == Halt(Done(v));
  }

  lemma NotNumeric(op: bv8)
    requires op in {0x00, 0x01, 0x02, 0x03, 0x04, 0x05, 0x0b, 0x0c, 0x0d, 0x0f, 0x10}
    ensures !IsVariable(op) && !IsNumeric(op)
  {
  }

  /** `unreachable` traps; `nop` and the block openers do nothing. */
  lemma TrapOrNothing(m: Module, code: Code, f: Frame, depth: nat)
    requires |f.locals| == MAX_LOCALS && depth < 16 && f.pc < |code| && code[f.pc] in {0x00, 0x01, 0x02, 0x03}
    ensures Run(m, code, f, depth) ==
            if code[f.pc] == 0x00 then Failed(Trap)
            else Run(m, code, f.(pc := f.pc + if code[f.pc] == 0x01 then 1 else 2), depth)
  {
    hide Numeric, Variable, Skip, IsBinary, Run;
    NotNumeric(code[f.pc]);
    var n := if code[f.pc] == 0x01 then 1 else 2;
    if code[f.pc] == 0x00 {
      RunHalts(m, code, f, depth, Failed(Trap));
    } else {
      RunStep(m, code, f, f.(pc := f.pc + n), depth);
    }
  }

  predicate TwoOperands(op: bv8) {
    op in {0x46, 0x47, 0x48, 0x4a, 0x4c, 0x4e, 0x6a, 0x6b, 0x6c, 0x6d, 0x71, 0x72, 0x73, 0x74, 0x75, 0x76}
  }

  predicate OneOperand(op: bv8) {
    op in {0x04, 0x0d, 0x1a, 0x21, 0x22, 0x45}
  }

  predicate NoOperand(op: bv8) {
    op in {0x00, 0x01, 0x02, 0x03, 0x05, 0x0b, 0x0c, 0x0f, 0x10, 0x20, 0x41}
  }

  /** An instruction of none of the four kinds is refused by its opcode. */
  lemma RefusesOpcode(m: Module, code: Code, f: Frame, depth: nat)
    requires |f.locals| == MAX_LOCALS && depth < 16 && f.pc < |code|
    requires var op := code[f.pc];
             !TwoOperands(op) && !OneOperand(op) && !NoOperand(op) && op != 0x1b
    ensures Run(m, code, f, depth) == Failed(Unsupported(code[f.pc]))
  {
    hide Numeric, Variable, Skip, Run;
    RunHalts(m, code, f, depth, Failed(Unsupported(code[f.pc])));
  }

  /** Too few operands fail the function. */
  lemma Underflows(m: Module, code: Code, f: Frame, depth: nat)
    requires |f.locals| == MAX_LOCALS && depth < 16 && f.pc < |code|
    requires var op, n := code[f.pc], |f.stack|;
             (TwoOperands(op) && n < 2) || (OneOperand(op) && n < 1) || (op == 0x1b && n < 3)
    ensures Run(m, code, f, depth) == Failed(StackUnderflow)
  {
    hide Run, Skip, Constant, Binary;
    RunHalts(m, code, f, depth, Failed(StackUnderflow));
  }

  /** No instruction pushes onto a full stack. */
  lemma Overflows(m: Module, code: Code, f: Frame, depth: nat)
    requires |f.locals| == MAX_LOCALS && depth < 16 && f.pc < |code|
    requires |f.stack| >= 256 && code[f.pc] in {0x10, 0x20, 0x41}
    ensures Run(m, code, f, depth) == Failed(StackOverflow)
  {
    hide Run, Skip, Binary;
    RunHalts(m, code, f, depth, Failed(StackOverflow));
  }

  /** A local past the 64th is an index out of range. */
  lemma BadLocal(m: Module, code: Code, f: Frame, depth: nat, op: bv8, bytes: seq<bv8>)
    requires |f.locals| == MAX_LOCALS && depth < 16 && op in {0x20, 0x21, 0x22}
    requires if op == 0x20 then |f.stack| < 256 else |f.stack| > 0
    requires Leb128.IsLeb(bytes) && Leb128.Unsigned(bytes) as nat >= 64 && Has(code, f.pc, [op] + bytes)
    ensures Run(m, code, f, depth) == Panicked
  {
    hide Run, Skip, Binary, Leb128.IsLeb, Leb128.UlebFrom, Leb128.Unsigned;
    HasOpcode(code, f.pc, op, bytes);
    Leb128.UlebDecodes(code, f.pc + 1, bytes);
    RunHalts(m, code, f, depth, Panicked);
  }

  lemma HasOpcode(code: Code, pc: nat, op: bv8, bytes: seq<bv8>)
    requires Has(code, pc, [op] + bytes)
    ensures pc < |code| && code[pc] == op && Leb128.Holds(code, pc + 1, bytes)
  {
    var all := [op] + bytes;
    assert code[pc..pc + |all|] == all;
    assert code[pc + 1..pc + 1 + |bytes|] == all[1..];
    assert code[pc] == all[0];
  }

  lemma RunHalts(m: Module, code: Code, f: Frame, depth: nat, o: Outcome)
    requires |f.locals| == MAX_LOCALS && depth < 16 && f.pc < |code| && Step(code, f) == Halt(o)
    ensures Run(m, code, f, depth) == o
  {
    hide Step;
  }

  /** A conditional branch ends the function with what lies under the condition, if that is not
      zero, and goes on without the condition otherwise. */
  lemma BranchIf(m: Module, code: Code, f: Frame, depth: nat, c: I32, bytes: seq<bv8>, v: I32)
    requires |f.locals| == MAX_LOCALS && depth < 16 && Yields(f.stack, v)
    requires Leb128.IsLeb(bytes) && Has(code, f.pc, [0x0d] + bytes)
    ensures Run(m, code, f.(stack := f.stack + [c]), depth) ==
            if c != 0 then Done(v) else Run(m, code, f.(pc := f.pc + 1 + |bytes|), depth)
  {
    hide Leb128.UlebFrom, Leb128.Unsigned, Leb128.IsLeb, Numeric, Variable, Skip, IsBinary, Run;
    HasParts(code, f.pc, [0x0d], bytes);
    HasByte(code, f.pc, 0x0d);
    NotNumeric(0x0d);
    Leb128.UlebDecodes(code, f.pc + 1, bytes);
    assert (f.stack + [c])[..|f.stack|] == f.stack;
    var g := f.(stack := f.stack + [c]);
    if c != 0 {
      RunHalts(m, code, g, depth, Done(v));
    } else {
      RunStep(m, code, g, f.(pc := f.pc + 1 + |bytes|), depth);
    }
  }

  /** Division traps on zero and truncates otherwise. */
  lemma DivStep(m: Module, code: Code, f: Frame, depth: nat, a: I32, b: I32)
    requires |f.locals| == MAX_LOCALS && depth < 16 && |f.stack| < 255 && Has(code, f.pc, [0x6d])
    ensures Run(m, code, f.(stack := f.stack + [a] + [b]), depth) ==
            if b == 0 then Failed(DivisionByZero) else Run(m, code, Grown(f, Divide(a, b), 1), depth)
  {
    hide Divide, Run, Control, Variable, Binary;
    HasByte(code, f.pc, 0x6d);
    assert (f.stack + [a] + [b])[..|f.stack|] == f.stack;
    var g := f.(stack := f.stack + [a] + [b]);
    if b == 0 {
      RunHalts(m, code, g, depth, Failed(DivisionByZero));
    } else {
      RunStep(m, code, g, Grown(f, Divide(a, b), 1), depth);
    }
  }

  /** A `tee` stores without popping. */
  lemma TeeStep(m: Module, code: Code, f: Frame, depth: nat, a: I32, bytes: seq<bv8>)
    requires |f.locals| == MAX_LOCALS && depth < 16
    requires Leb128.IsLeb(bytes) && Leb128.Unsigned(bytes) as nat < 64 && Has(code, f.pc, [0x22] + bytes)
    ensures Run(m, code, f.(stack := f.stack + [a]), depth) ==
            Run(m, code, f.(stack := f.stack + [a], locals := f.locals[Leb128.Unsigned(bytes) as nat := a],
                            pc := f.pc + 1 + |bytes|), depth)
  {
    hide Leb128.UlebFrom, Leb128.Unsigned, Leb128.IsLeb, Run, Control, Numeric;
    HasParts(code, f.pc, [0x22], bytes);
    HasByte(code, f.pc, 0x22);
    Leb128.UlebDecodes(code, f.pc + 1, bytes);
    var g := f.(stack := f.stack + [a], locals := f.locals[Leb128.Unsigned(bytes) as nat := a], pc := f.pc + 1 + |bytes|);
    RunStep(m, code, f.(stack := f.stack + [a]), g, depth);
  }

  /** Skipping looks past an expression's bytes, whatever they are. */
  lemma {:induction false} SkipsExpression(code: Code, pc: nat, nesting: nat, e: Expr)
    requires WellFormed(e) && Has(code, pc, Compile(e))
    ensures Skip(code, pc, nesting) == Skip(code, pc + |Compile(e)|, nesting)
    decreases Size(e), 1
  {
    hide Skip, Leb128.IsLeb, Leb128.Unsigned, Opcode, Index, Has;
    match e
    case Const(bytes) => SkipsOperand(code, pc, nesting, 0x41, bytes);
    case Local(bytes) => SkipsOperand(code, pc, nesting, 0x20, bytes);
    case Zero(a) =>
      HasParts(code, pc, Compile(a), [0x45]);
      SkipsExpression(code, pc, nesting, a);
      SkipsPlain(code, pc + |Compile(a)|, nesting, 0x45);
    case Bin(op, a, b) =>
      var ab := Compile(a) + Compile(b);
      HasParts(code, pc, ab, [Opcode(op)]);
      SkipsBoth(code, pc, nesting, a, b);
      OpcodePlain(op);
      SkipsPlain(code, pc + |ab|, nesting, Opcode(op));
    case Select(a, b, c) =>
      var ab := Compile(a) + Compile(b);
      HasParts(code, pc, ab + Compile(c), [0x1b]);
      HasParts(code, pc, ab, Compile(c));
      SkipsBoth(code, pc, nesting, a, b);
      SkipsExpression(code, pc + |ab|, nesting, c);
      SkipsPlain(code, pc + |ab + Compile(c)|, nesting, 0x1b);
  }

  lemma {:induction false} SkipsBoth(code: Code, pc: nat, nesting: nat, a: Expr, b: Expr)
    requires WellFormed(a) && WellFormed(b) && Has(code, pc, Compile(a) + Compile(b))
    ensures Skip(code, pc, nesting) == Skip(code, pc + |Compile(a) + Compile(b)|, nesting)
    decreases Size(a) + Size(b), 2
  {
    hide Skip, Compile, WellFormed, Has;
    HasParts(code, pc, Compile(a), Compile(b));
    SkipsExpression(code, pc, nesting, a);
    SkipsExpression(code, pc + |Compile(a)|, nesting, b);
  }

  predicate Plain(op: bv8) {
    op !in {0x02, 0x03, 0x04, 0x05, 0x0b, 0x10, 0x0c, 0x0d, 0x20, 0x21, 0x22, 0x41}
  }

  lemma OpcodePlain(op: Operator)
    ensures Plain(Opcode(op))
  {
  }

  lemma SkipsPlain(code: Code, pc: nat, nesting: nat, op: bv8)
    requires Has(code, pc, [op]) && Plain(op)
    ensures Skip(code, pc, nesting) == Skip(code, pc + 1, nesting)
  {
    HasByte(code, pc, op);
  }

  lemma SkipsOperand(code: Code, pc: nat, nesting: nat, op: bv8, bytes: seq<bv8>)
    requires op in {0x41, 0x20} && Leb128.IsLeb(bytes) && Has(code, pc, [op] + bytes)
    ensures Skip(code, pc, nesting) == Skip(code, pc + 1 + |bytes|, nesting)
  {
    hide Leb128.UlebFrom, Leb128.SlebFrom, Leb128.IsLeb, Leb128.Unsigned, Leb128.Signed;
    HasParts(code, pc, [op], bytes);
    HasByte(code, pc, op);
    Leb128.UlebDecodes(code, pc + 1, bytes);
    Leb128.SlebDecodes(code, pc + 1, bytes);
  }

  /** Skipping stops past an `else` or `end` at its own level. */
  lemma SkipStops(code: Code, pc: nat)
    requires pc < |code| && code[pc] in {0x05, 0x0b}
    ensures Skip(code, pc, 0) == pc + 1
  {
  }

  /** Skipping looks past a whole nested block. */
  lemma SkipsBlock(code: Code, pc: nat, nesting: nat, op: bv8, blocktype: bv8, e: Expr)
    requires op in {0x02, 0x03, 0x04} && WellFormed(e) && Has(code, pc, [op, blocktype] + Compile(e) + [0x0b])
    ensures Skip(code, pc, nesting) == Skip(code, pc + 3 + |Compile(e)|, nesting)
  {
    hide Compile, WellFormed;
    var part := Compile(e);
    HasParts(code, pc, [op, blocktype] + part, [0x0b]);
    HasParts(code, pc, [op, blocktype], part);
    assert code[pc] == code[pc..pc + 2][0];
    SkipsExpression(code, pc + 2, nesting + 1, e);
    HasByte(code, pc + 2 + |part|, 0x0b);
  }

  /** The body of a function that chooses between two values. */
  function Choice(c: Expr, blocktype: bv8, a: Expr, b: Expr): Code {
    Compile(c) + [0x04, blocktype] + Compile(a) + [0x05] + Compile(b) + [0x0b]
  }

  lemma ChoiceParts(c: Expr, blocktype: bv8, a: Expr, b: Expr)
    ensures var code := Choice(c, blocktype, a, b);
            var yes := |Compile(c)| + 2;
            var no := yes + |Compile(a)| + 1;
            && Has(code, 0, Compile(c)) && Has(code, yes - 2, [0x04]) && Has(code, yes, Compile(a))
            && Has(code, no - 1, [0x05]) && Has(code, no, Compile(b)) && Has(code, no + |Compile(b)|, [0x0b])
            && |code| == no + |Compile(b)| + 1
  {
    hide Compile, Has;
    var code := Choice(c, blocktype, a, b);
    var p1 := Compile(c) + [0x04, blocktype];
    var p2 := p1 + Compile(a);
    var p3 := p2 + [0x05];
    var p4 := p3 + Compile(b);
    HasAll(code);
    HasParts(code, 0, p4, [0x0b]);
    HasParts(code, 0, p3, Compile(b));
    HasParts(code, 0, p2, [0x05]);
    HasParts(code, 0, p1, Compile(a));
    HasParts(code, 0, Compile(c), [0x04, blocktype]);
    assert [0x04, blocktype] == [0x04] + [blocktype];
    HasParts(code, |Compile(c)|, [0x04], [blocktype]);
  }

  lemma HasAll(code: Code)
    ensures Has(code, 0, code)
  {
  }

  /** An `if` and `else` around two expressions returns the one the condition chooses. */
  lemma CallChooses(m: Module, func: bv32, args: seq<I32>, depth: nat, c: Expr, blocktype: bv8, a: Expr, b: Expr,
                    locals: seq<I32>)
    requires WellFormed(c) && WellFormed(a) && WellFormed(b) && depth < 16 && Starts(locals, args)
    requires Need(c) <= 256 && Need(a) <= 256 && Need(b) <= 256
    requires m.imports <= func as nat < m.imports + |m.bodies|
    requires m.bodies[func as nat - m.imports] == Choice(c, blocktype, a, b)
    ensures CallFunc(m, func, args, depth) == Done(if Eval(c, locals) != 0 then Eval(a, locals) else Eval(b, locals))
  {
    hide Run, Eval, WellFormed, Need, Compile, Choice, Skip, Step, Has;
    var code := m.bodies[func as nat - m.imports];
    assert Locals(args) == locals;
    ChoiceParts(c, blocktype, a, b);
    RunsExpression(m, code, Frame(locals, [], 0), depth, c);
    var v, at := Eval(c, locals), |Compile(c)|;
    assert [] + [v] == [v];
    IfStep(m, code, Frame(locals, [], at), depth, v);
    if v != 0 {
      ChoosesFirst(m, code, depth, at + 2, a, b, locals);
    } else {
      ChoosesSecond(m, code, depth, at + 2, a, b, locals);
    }
  }

  lemma ChoosesFirst(m: Module, code: Code, depth: nat, yes: nat, a: Expr, b: Expr, locals: seq<I32>)
    requires WellFormed(a) && WellFormed(b) && depth < 16 && |locals| == 64 && Need(a) <= 256
    requires var no := yes + |Compile(a)| + 1;
             && Has(code, yes, Compile(a)) && Has(code, no - 1, [0x05]) && Has(code, no, Compile(b))
             && Has(code, no + |Compile(b)|, [0x0b]) && |code| == no + |Compile(b)| + 1
    ensures Run(m, code, Frame(locals, [], yes), depth) == Done(Eval(a, locals))
  {
    hide Run, Eval, WellFormed, Need, Compile, Skip, Step, Has;
    var no := yes + |Compile(a)| + 1;
    RunsExpression(m, code, Frame(locals, [], yes), depth, a);
    assert [] + [Eval(a, locals)] == [Eval(a, locals)];
    HasByte(code, no - 1, 0x05);
    ElseStep(m, code, Frame(locals, [Eval(a, locals)], no - 1), depth);
    SkipsExpression(code, no, 0, b);
    HasByte(code, |code| - 1, 0x0b);
    SkipStops(code, |code| - 1);
    RunEnds(m, code, Frame(locals, [Eval(a, locals)], |code|), depth);
  }

  lemma ChoosesSecond(m: Module, code: Code, depth: nat, yes: nat, a: Expr, b: Expr, locals: seq<I32>)
    requires WellFormed(a) && WellFormed(b) && depth < 16 && |locals| == 64 && Need(b) <= 256
    requires var no := yes + |Compile(a)| + 1;
             && Has(code, yes, Compile(a)) && Has(code, no - 1, [0x05]) && Has(code, no, Compile(b))
             && Has(code, no + |Compile(b)|, [0x0b]) && |code| == no + |Compile(b)| + 1
    ensures Run(m, code, Frame(locals, [], Skip(code, yes, 0)), depth) == Done(Eval(b, locals))
  {
    hide Run, Eval, WellFormed, Need, Compile, Skip, Step, Has;
    var no := yes + |Compile(a)| + 1;
    SkipsExpression(code, yes, 0, a);
    HasByte(code, no - 1, 0x05);
    SkipStops(code, no - 1);
    RunsExpression(m, code, Frame(locals, [], no), depth, b);
    assert [] + [Eval(b, locals)] == [Eval(b, locals)];
    HasByte(code, |code| - 1, 0x0b);
    EndsEarly(m, code, Frame(locals, [Eval(b, locals)], |code| - 1), depth, Eval(b, locals));
  }

  lemma IfStep(m: Module, code: Code, f: Frame, depth: nat, v: I32)
    requires |f.locals| == MAX_LOCALS && depth < 16 && Has(code, f.pc, [0x04])
    ensures Run(m, code, f.(stack := f.stack + [v]), depth) ==
            Run(m, code, f.(pc := if v != 0 then f.pc + 2 else Skip(code, f.pc + 2, 0)), depth)
  {
    hide Skip, Numeric, Variable, IsBinary, Run;
    HasByte(code, f.pc, 0x04);
    NotNumeric(0x04);
    assert (f.stack + [v])[..|f.stack|] == f.stack;
    RunStep(m, code, f.(stack := f.stack + [v]), f.(pc := if v != 0 then f.pc + 2 else Skip(code, f.pc + 2, 0)), depth);
  }

  lemma ElseStep(m: Module, code: Code, f: Frame, depth: nat)
    requires |f.locals| == MAX_LOCALS && depth < 16 && f.pc < |code| && code[f.pc] == 0x05
    ensures Run(m, code, f, depth) == Run(m, code, f.(pc := Skip(code, f.pc + 1, 0)), depth)
  {
    hide Skip, Numeric, Variable, IsBinary, Run;
    NotNumeric(0x05);
    RunStep(m, code, f, f.(pc := Skip(code, f.pc + 1, 0)), depth);
  }

  lemma RunEnds(m: Module, code: Code, f: Frame, depth: nat)
    requires |f.locals| == MAX_LOCALS && depth < 16 && f.pc >= |code| && f.stack != []
    ensures Run(m, code, f, depth) == Done(f.stack[|f.stack| - 1])
  {
  }
}
