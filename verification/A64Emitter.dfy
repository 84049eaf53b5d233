/** The build's A64 immediate emitter: a MOVZ and as many MOVKs as the constant needs, run on
    the meaning the Arm architecture gives those two instructions. */
module A64Emitter {

  type Word = bv32
  datatype Register = X(n: bv32)
  type Registers = map<Register, bv64>

  // ── The instructions ───────────────────────────────────────────────────────

  datatype Instruction = Movz(rd: bv32, hw: bv32, imm16: bv32) | Movk(rd: bv32, hw: bv32, imm16: bv32) | Other

  /** Move wide (64-bit): opcode in bits 31-23, shift in 22-21, immediate in 20-5, register in 4-0. */
  function Decode(w: Word): Instruction {
    var rd, hw, imm16 := w & 0x1F, (w >> 21) & 3, (w >> 5) & 0xFFFF;
    if w >> 23 == 0x1A5 then Movz(rd, hw, imm16)
    else if w >> 23 == 0x1E5 then Movk(rd, hw, imm16)
    else Other
  }

  /** A halfword in place. */
  function Placed(imm16: bv32, hw: bv32): bv64 {
    var v := imm16 as bv64;
    if hw == 0 then v else if hw == 1 then v << 16 else if hw == 2 then v << 32 else v << 48
  }

  function Inserted(x: bv64, imm16: bv32, hw: bv32): bv64 {
    (x & !Placed(0xFFFF, hw)) | Placed(imm16, hw)
  }

  function Read(regs: Registers, rd: bv32): bv64 {
    if X(rd) in regs then regs[X(rd)] else 0
  }

  /** Register 31 is the zero register: writes to it are lost. */
  function Write(regs: Registers, rd: bv32, x: bv64): Registers {
    if rd == 31 then regs else regs[X(rd) := x]
  }

  function Execute(w: Word, regs: Registers): Registers {
    match Decode(w)
    case Movz(rd, hw, imm16) => Write(regs, rd, Placed(imm16, hw))
    case Movk(rd, hw, imm16) => Write(regs, rd, Inserted(Read(regs, rd), imm16, hw))
    case Other => regs
  }

  function ExecuteAll(code: seq<Word>, regs: Registers): Registers {
    if code == [] then regs else ExecuteAll(code[1..], Execute(code[0], regs))
  }

  // ── The emitter ────────────────────────────────────────────────────────────

  function Halfword(imm: bv64, hw: nat): bv32
    requires hw < 4
  {
    match hw
    case 0 => (imm & 0xFFFF) as bv32
    case 1 => ((imm >> 16) & 0xFFFF) as bv32
    case 2 => ((imm >> 32) & 0xFFFF) as bv32
    case _ => ((imm >> 48) & 0xFFFF) as bv32
  }

  function Field(hw: nat): bv32
    requires hw < 4
  {
    match hw
    case 0 => 0
    case 1 => 1
    case 2 => 2
    case _ => 3
  }

  function Encoded(first: bool, hw: nat, imm16: bv32, reg: bv32): Word
    requires hw < 4
  {
    (if first then 0xD280_0000 else 0xF280_0000) | (Field(hw) << 21) | (imm16 << 5) | reg
  }

  /** The words for halfwords below `n`. */
  function Emitted(reg: bv32, imm: bv64, n: nat): seq<Word>
    requires n <= 4
  {
    if n == 0 then []
    else if n > 1 && Halfword(imm, n - 1) == 0 then Emitted(reg, imm, n - 1)
    else Emitted(reg, imm, n - 1) + [Encoded(n == 1, n - 1, Halfword(imm, n - 1), reg)]
  }

  method LoadImm(code: seq<Word>, reg: bv32, imm: bv64) returns (r: seq<Word>)
    ensures r == code + Emitted(reg, imm, 4)
  {
    hide Halfword, Encoded;
    var first := true;
    var out: seq<Word> := [];
    var hw := 0;
    while hw < 4
      invariant 0 <= hw <= 4 && out == Emitted(reg, imm, hw) && (first <==> hw == 0)
    {
      var imm16 := Halfword(imm, hw);
      if !(imm16 == 0 && !first) {
        out := out + [Encoded(first, hw, imm16, reg)];
        first := false;
      }
      hw := hw + 1;
    }
    r := code + out;
  }

  // ── The words load the constant ────────────────────────────────────────────

  lemma DecodesWord(first: bool, hw: nat, imm16: bv32, reg: bv32)
    requires hw < 4 && imm16 <= 0xFFFF && reg <= 31
    ensures Decode(Encoded(first, hw, imm16, reg)) == if first then Movz(reg, Field(hw), imm16) else Movk(reg, Field(hw), imm16)
  {
  }

  /** The low `n` halfwords. */
  function LowPart(imm: bv64, n: nat): bv64
    requires n <= 4
  {
    match n
    case 0 => 0
    case 1 => imm & 0xFFFF
    case 2 => imm & 0xFFFF_FFFF
    case 3 => imm & 0xFFFF_FFFF_FFFF
    case _ => imm
  }

  lemma FirstPart(imm: bv64)
    ensures Placed(Halfword(imm, 0), Field(0)) == LowPart(imm, 1)
  {
  }

  lemma NextPart1(imm: bv64)
    ensures Inserted(LowPart(imm, 1), Halfword(imm, 1), Field(1)) == LowPart(imm, 2)
    ensures Halfword(imm, 1) == 0 ==> LowPart(imm, 1) == LowPart(imm, 2)
  {
  }

  lemma NextPart2(imm: bv64)
    ensures Inserted(LowPart(imm, 2), Halfword(imm, 2), Field(2)) == LowPart(imm, 3)
    ensures Halfword(imm, 2) == 0 ==> LowPart(imm, 2) == LowPart(imm, 3)
  {
  }

  lemma NextPart3(imm: bv64)
    ensures Inserted(LowPart(imm, 3), Halfword(imm, 3), Field(3)) == LowPart(imm, 4)
    ensures Halfword(imm, 3) == 0 ==> LowPart(imm, 3) == LowPart(imm, 4)
  {
  }

  lemma Movk0(x: bv64, imm16: bv32)
    requires imm16 <= 0xFFFF
    ensures var y := Inserted(x, imm16, 0);
            && Halfword(y, 0) == imm16 && Halfword(y, 1) == Halfword(x, 1)
            && Halfword(y, 2) == Halfword(x, 2) && Halfword(y, 3) == Halfword(x, 3)
  {
  }

  lemma Movk1(x: bv64, imm16: bv32)
    requires imm16 <= 0xFFFF
    ensures var y := Inserted(x, imm16, 1);
            && Halfword(y, 1) == imm16 && Halfword(y, 0) == Halfword(x, 0)
            && Halfword(y, 2) == Halfword(x, 2) && Halfword(y, 3) == Halfword(x, 3)
  {
  }

  lemma Movk2(x: bv64, imm16: bv32)
    requires imm16 <= 0xFFFF
    ensures var y := Inserted(x, imm16, 2);
            && Halfword(y, 2) == imm16 && Halfword(y, 0) == Halfword(x, 0)
            && Halfword(y, 1) == Halfword(x, 1) && Halfword(y, 3) == Halfword(x, 3)
  {
  }

  lemma Movk3(x: bv64, imm16: bv32)
    requires imm16 <= 0xFFFF
    ensures var y := Inserted(x, imm16, 3);
            && Halfword(y, 3) == imm16 && Halfword(y, 0) == Halfword(x, 0)
            && Halfword(y, 1) == Halfword(x, 1) && Halfword(y, 2) == Halfword(x, 2)
  {
  }

  /** A MOVK replaces one halfword and keeps the other three. */
  lemma MovkReplacesOne(x: bv64, imm16: bv32, hw: nat, k: nat)
    requires hw < 4 && k < 4 && imm16 <= 0xFFFF
    ensures Halfword(Inserted(x, imm16, Field(hw)), k) == if k == hw then imm16 else Halfword(x, k)
  {
    hide Halfword, Inserted;
    match hw
    case 0 => Movk0(x, imm16);
    case 1 => Movk1(x, imm16);
    case 2 => Movk2(x, imm16);
    case 3 => Movk3(x, imm16);
  }

  lemma HalfwordFits(imm: bv64, hw: nat)
    requires hw < 4
    ensures Halfword(imm, hw) <= 0xFFFF
  {
  }

  lemma {:induction false} ExecuteAppend(a: seq<Word>, w: Word, regs: Registers)
    ensures ExecuteAll(a + [w], regs) == Execute(w, ExecuteAll(a, regs))
  {
    hide Execute;
    if a == [] {
      assert (a + [w])[1..] == [];
    } else {
      assert (a + [w])[1..] == a[1..] + [w];
      ExecuteAppend(a[1..], w, Execute(a[0], regs));
    }
  }

  lemma NextPart(imm: bv64, k: nat)
    requires 1 <= k <= 3
    ensures Inserted(LowPart(imm, k), Halfword(imm, k), Field(k)) == LowPart(imm, k + 1)
    ensures Halfword(imm, k) == 0 ==> LowPart(imm, k) == LowPart(imm, k + 1)
  {
    hide Inserted, LowPart, Halfword, Field;
    match k
    case 1 => NextPart1(imm);
    case 2 => NextPart2(imm);
    case 3 => NextPart3(imm);
  }

  lemma ExecutesWord(first: bool, hw: nat, imm16: bv32, reg: bv32, regs: Registers)
    requires hw < 4 && imm16 <= 0xFFFF && reg <= 30
    ensures Execute(Encoded(first, hw, imm16, reg), regs) ==
            regs[X(reg) := if first then Placed(imm16, Field(hw)) else Inserted(Read(regs, reg), imm16, Field(hw))]
  {
    hide Decode, Encoded, Placed, Inserted, Field;
    DecodesWord(first, hw, imm16, reg);
  }

  lemma {:induction false} LoadsPart(reg: bv32, imm: bv64, n: nat, regs: Registers)
    requires 1 <= n <= 4 && reg <= 30
    ensures ExecuteAll(Emitted(reg, imm, n), regs) == regs[X(reg) := LowPart(imm, n)]
  {
    hide Halfword, Encoded, LowPart, Placed, Inserted, Execute, ExecuteAll, Field;
    var k := n - 1;
    var h := Halfword(imm, k);
    HalfwordFits(imm, k);
    ExecuteAppend(Emitted(reg, imm, k), Encoded(k == 0, k, h, reg), regs);
    if k == 0 {
      FirstPart(imm);
      NothingYet(regs);
      ExecutesWord(true, 0, h, reg, regs);
    } else {
      LoadsPart(reg, imm, k, regs);
      NextPart(imm, k);
      ExecutesWord(false, k, h, reg, regs[X(reg) := LowPart(imm, k)]);
      ReadWritten(regs, reg, LowPart(imm, k));
      assert regs[X(reg) := LowPart(imm, k)][X(reg) := LowPart(imm, n)] == regs[X(reg) := LowPart(imm, n)];
    }
  }

  lemma ReadWritten(regs: Registers, reg: bv32, x: bv64)
    ensures Read(regs[X(reg) := x], reg) == x
  {
  }

  lemma NothingYet(regs: Registers)
    ensures ExecuteAll([], regs) == regs
  {
  }

  lemma {:induction false} ZeroRegisterKept(imm: bv64, n: nat, regs: Registers)
    requires n <= 4
    ensures ExecuteAll(Emitted(31, imm, n), regs) == regs
  {
    hide Halfword, Encoded, Placed, Inserted, Execute, Field;
    if n > 0 {
      var h := Halfword(imm, n - 1);
      HalfwordFits(imm, n - 1);
      ZeroRegisterKept(imm, n - 1, regs);
      ExecuteAppend(Emitted(31, imm, n - 1), Encoded(n == 1, n - 1, h, 31), regs);
      WriteLost(n == 1, n - 1, h, regs);
    }
  }

  lemma WriteLost(first: bool, hw: nat, imm16: bv32, regs: Registers)
    requires hw < 4 && imm16 <= 0xFFFF
    ensures Execute(Encoded(first, hw, imm16, 31), regs) == regs
  {
    hide Decode, Encoded, Placed, Inserted, Field;
    DecodesWord(first, hw, imm16, 31);
  }

  /** For every register and constant the emitted words leave the constant in the register
      and every other register alone; the zero register stays what it is. */
  lemma LoadsConstant(reg: bv32, imm: bv64, regs: Registers)
    requires reg <= 31
    ensures ExecuteAll(Emitted(reg, imm, 4), regs) == if reg == 31 then regs else regs[X(reg) := imm]
  {
    hide Emitted, ExecuteAll;
    if reg == 31 {
      ZeroRegisterKept(imm, 4, regs);
    } else {
      AtMost30(reg);
      LoadsPart(reg, imm, 4, regs);
    }
  }

  lemma AtMost30(reg: bv32)
    requires reg <= 31 && reg != 31
    ensures reg <= 30
  {
  }

  /** No word is wasted: one for the lowest halfword and one for each other that is not zero. */
  lemma WordsNeeded(reg: bv32, imm: bv64)
    ensures |Emitted(reg, imm, 4)| == 1 + (if imm & 0xFFFF_0000 == 0 then 0 else 1)
                                        + (if imm & 0xFFFF_0000_0000 == 0 then 0 else 1)
                                        + (if imm & 0xFFFF_0000_0000_0000 == 0 then 0 else 1)
  {
    hide Encoded, Halfword;
    ZeroHalfwords(imm);
    assert |Emitted(reg, imm, 1)| == 1;
    assert |Emitted(reg, imm, 2)| == 1 + (if Halfword(imm, 1) == 0 then 0 else 1);
    assert |Emitted(reg, imm, 3)| == |Emitted(reg, imm, 2)| + (if Halfword(imm, 2) == 0 then 0 else 1);
  }

  lemma ZeroHalfwords(imm: bv64)
    ensures Halfword(imm, 1) == 0 <==> imm & 0xFFFF_0000 == 0
    ensures Halfword(imm, 2) == 0 <==> imm & 0xFFFF_0000_0000 == 0
    ensures Halfword(imm, 3) == 0 <==> imm & 0xFFFF_0000_0000_0000 == 0
  {
  }
}
