/** irq.c: the interrupt controller set up one register write at a time.

    VICIntEnable sets the bits written as one and VICIntEnClr clears them; the interrupt can be
    taken between any two writes.
 */
module Vic {
  import opened Machine
  import opened Numerals

  const VIC_SIZE := 32
  const VIC_BASE: Word := 0xFFFF_F000
  const INT_SELECT: Word := VIC_BASE + 0x00C
  const INT_ENABLE: Word := VIC_BASE + 0x010
  const INT_EN_CLR: Word := VIC_BASE + 0x014
  const VECT_ADDR: Word := VIC_BASE + 0xF00

  type Slot = i: nat | i < VIC_SIZE

  function VectorAddress(n: int): Word {
    ToWord(VIC_BASE + 0x100 + n * 4)
  }

  function PriorityAddress(n: int): Word {
    ToWord(VIC_BASE + 0x200 + n * 4)
  }

  // ----- bits

  predicate Bit(v: nat, i: nat)
    decreases i
  {
    if i == 0 then v % 2 == 1 else Bit(v / 2, i - 1)
  }

  /** The slots whose bit is set in a register value. */
  function Bits(v: Word): set<Slot> {
    set i: Slot | i < VIC_SIZE && Bit(v, i)
  }

  lemma {:induction false} BitOfPower(n: nat, i: nat)
    ensures Bit(Pow(2, n), i) <==> i == n
    decreases i
  {
    if n > 0 {
      assert Pow(2, n) == 2 * Pow(2, n - 1);
    }
    if i > 0 {
      if n > 0 {
        BitOfPower(n - 1, i - 1);
      } else {
        BitOfZero(i - 1);
      }
    }
  }

  lemma {:induction false} BitOfZero(i: nat)
    ensures !Bit(0, i)
    decreases i
  {
    if i > 0 {
      BitOfZero(i - 1);
    }
  }

  lemma {:induction false} BitOfOnes(k: nat, i: nat)
    requires i < k
    ensures Pow(2, k) > 0 && Bit(Pow(2, k) - 1, i)
    decreases k
  {
    var p := Pow(2, k - 1);
    assert Pow(2, k) == 2 * p;
    PowPositive(2, k - 1);
    Halve(p);
    if i > 0 {
      BitOfOnes(k - 1, i - 1);
    }
  }

  lemma {:induction false} Halve(p: nat)
    requires p > 0
    ensures (2 * p - 1) % 2 == 1 && (2 * p - 1) / 2 == p - 1
  {}

  lemma {:induction false} PowerBound(n: nat, k: nat)
    requires n <= k
    ensures Pow(2, n) <= Pow(2, k)
    decreases k - n
  {
    if n < k {
      PowPositive(2, n);
      PowerBound(n + 1, k);
    }
  }

  lemma {:induction false} Power32()
    ensures Pow(2, 31) == 0x8000_0000 && Pow(2, 32) == 0x1_0000_0000
  {
    assert Pow(2, 8) == 256;
    assert Pow(2, 16) == 0x1_0000;
    assert Pow(2, 24) == 0x100_0000;
  }

  /** `1 << n`: the target shifts by the low byte of `n`, and by 32 or more it leaves nothing. */
  function ShiftOne(n: int): Word {
    var k := n % 256;
    if k < VIC_SIZE then PowerBound(k, 31); Power32(); Pow(2, k) else 0
  }

  /** The slot that `1 << n` selects, if any. */
  function Selected(n: int): set<Slot> {
    if n % 256 < VIC_SIZE then {n % 256} else {}
  }

  lemma {:induction false} BitsOfShift(n: int)
    ensures Bits(ShiftOne(n)) == Selected(n)
  {
    forall i: Slot ensures i in Bits(ShiftOne(n)) <==> i in Selected(n) {
      if n % 256 < VIC_SIZE {
        BitOfPower(n % 256, i);
      } else {
        BitOfZero(i);
      }
    }
  }

  lemma {:induction false} BitsOfAll()
    ensures forall i: Slot :: i in Bits(0xFFFF_FFFF)
  {
    forall i: Slot ensures i in Bits(0xFFFF_FFFF) {
      BitOfOnes(32, i);
      Power32();
    }
  }

  // ----- registers

  datatype Regs = Regs(enabled: set<Slot>, vector: seq<Word>, priority: seq<Word>, select: Word, current: Word) {
    ghost predicate Valid() {
      |vector| == VIC_SIZE && |priority| == VIC_SIZE
    }
  }

  datatype Write = Write(addr: Word, value: Word)

  /** What the controller does with one write: the address decides. */
  function Apply(r: Regs, w: Write): (s: Regs)
    requires r.Valid()
    ensures s.Valid()
  {
    var off := w.addr - VIC_BASE;
    if w.addr == INT_ENABLE then r.(enabled := r.enabled + Bits(w.value))
    else if w.addr == INT_EN_CLR then r.(enabled := r.enabled - Bits(w.value))
    else if 0x100 <= off < 0x180 && off % 4 == 0 then r.(vector := r.vector[(off - 0x100) / 4 := w.value])
    else if 0x200 <= off < 0x280 && off % 4 == 0 then r.(priority := r.priority[(off - 0x200) / 4 := w.value])
    else if w.addr == INT_SELECT then r.(select := w.value)
    else if w.addr == VECT_ADDR then r.(current := w.value)
    else r
  }

  function ApplyAll(r: Regs, ws: seq<Write>): (s: Regs)
    requires r.Valid()
    ensures s.Valid()
  {
    if ws == [] then r else Apply(ApplyAll(r, ws[..|ws| - 1]), ws[|ws| - 1])
  }

  lemma {:induction false} ApplyAllConcat(r: Regs, a: seq<Write>, b: seq<Write>)
    requires r.Valid()
    ensures ApplyAll(r, a + b) == ApplyAll(ApplyAll(r, a), b)
  {
    hide Apply;
    if b == [] {
      assert a + b == a;
    } else {
      assert (a + b)[..|a + b| - 1] == a + b[..|b| - 1];
      ApplyAllConcat(r, a, b[..|b| - 1]);
    }
  }

  /** Computed addresses reach the register meant and no other. */
  lemma {:induction false} AddressesDoNotAlias(r: Regs, i: Slot, v: Word)
    requires r.Valid()
    ensures Apply(r, Write(VectorAddress(i), v)) == r.(vector := r.vector[i := v])
    ensures Apply(r, Write(PriorityAddress(i), v)) == r.(priority := r.priority[i := v])
  {
    hide VectorAddress, PriorityAddress, Bits;
    SlotAddresses(i);
  }

  lemma {:induction false} SlotAddresses(i: Slot)
    ensures VectorAddress(i) == VIC_BASE + 0x100 + i * 4 && PriorityAddress(i) == VIC_BASE + 0x200 + i * 4
  {}

  /** Where the registers are. */
  lemma {:induction false} RegisterMap(i: Slot)
    ensures INT_SELECT == 0xFFFF_F00C && INT_ENABLE == 0xFFFF_F010 && INT_EN_CLR == 0xFFFF_F014
    ensures VECT_ADDR == 0xFFFF_FF00
    ensures VectorAddress(i) == 0xFFFF_F100 + 4 * i && PriorityAddress(i) == 0xFFFF_F200 + 4 * i
  {
    SlotAddresses(i);
  }

  // ----- operations as sequences of writes

  datatype Op = Init | Install(number: int, handler: Word, priority: Word)

  function InitLoop(i: nat): seq<Write>
    requires i <= VIC_SIZE
    decreases VIC_SIZE - i
  {
    if i == VIC_SIZE then []
    else [Write(VectorAddress(i), 0), Write(PriorityAddress(i), 0xF)] + InitLoop(i + 1)
  }

  function Writes(op: Op): (ws: seq<Write>)
    ensures |ws| > 0
  {
    match op
    case Init =>
      [Write(INT_EN_CLR, 0xFFFF_FFFF), Write(VECT_ADDR, 0), Write(INT_SELECT, 0)] + InitLoop(0)
    case Install(n, h, p) =>
      if n >= VIC_SIZE then [Write(INT_EN_CLR, ShiftOne(n))]
      else [Write(INT_EN_CLR, ShiftOne(n)), Write(VectorAddress(n), h),
            Write(PriorityAddress(n), p), Write(INT_ENABLE, ShiftOne(n))]
  }

  function Trace(ops: seq<Op>): seq<Write> {
    if ops == [] then [] else Trace(ops[..|ops| - 1]) + Writes(ops[|ops| - 1])
  }

  /** How many of the operations have begun when `k` writes have been made. */
  function Begun(ops: seq<Op>, k: nat): (m: nat)
    requires k <= |Trace(ops)|
    ensures m <= |ops|
  {
    if ops == [] then 0
    else
      var init := ops[..|ops| - 1];
      if k > |Trace(init)| then |ops| else Begun(init, k)
  }

  /** The handler and priority of the latest install on a slot, unless the controller was reset or
      a rejected install disabled the slot since. */
  function Latest(ops: seq<Op>, i: Slot): Option<(Word, Word)> {
    if ops == [] then None
    else
      match ops[|ops| - 1]
      case Init => None
      case Install(n, h, p) =>
        if n == i then Some((h, p))
        else if n >= VIC_SIZE && i in Selected(n) then None
        else Latest(ops[..|ops| - 1], i)
  }

  // ----- never torn

  /** Every enabled slot holds exactly its latest install. */
  ghost predicate Intact(r: Regs, ops: seq<Op>)
    requires r.Valid()
  {
    forall i: Slot :: i in r.enabled ==> Latest(ops, i) == Some((r.vector[i], r.priority[i]))
  }

  /** And every slot installed since the reset is enabled, and the other registers are as the
      reset left them. */
  ghost predicate Exact(r: Regs, ops: seq<Op>)
    requires r.Valid()
  {
    && Intact(r, ops) && (forall i: Slot :: Latest(ops, i).Some? ==> i in r.enabled)
    && r.select == 0 && r.current == 0
  }

  lemma {:induction false} LatestAppend(ops: seq<Op>, op: Op, i: Slot)
    ensures Latest(ops + [op], i) ==
            match op
            case Init => None
            case Install(n, h, p) =>
              if n == i then Some((h, p))
              else if n >= VIC_SIZE && i in Selected(n) then None
              else Latest(ops, i)
  {
    assert (ops + [op])[..|ops|] == ops;
  }

  lemma {:induction false} LoopAddresses(i: nat, j: nat)
    requires i <= VIC_SIZE && j < |InitLoop(i)|
    ensures InitLoop(i)[j].addr != INT_ENABLE && InitLoop(i)[j].addr != INT_EN_CLR
    decreases VIC_SIZE - i
  {
    hide VectorAddress, PriorityAddress;
    SlotAddresses(i);
    if j >= 2 {
      LoopAddresses(i + 1, j - 2);
    }
  }

  lemma {:induction false} ApplySnoc(r: Regs, ws: seq<Write>, w: Write)
    requires r.Valid()
    ensures ApplyAll(r, ws + [w]) == Apply(ApplyAll(r, ws), w)
  {
    assert (ws + [w])[..|ws|] == ws;
  }

  lemma {:induction false} ApplyNothing(r: Regs)
    requires r.Valid()
    ensures ApplyAll(r, []) == r
  {}

  lemma {:induction false} DisableAll(r: Regs)
    requires r.Valid()
    ensures Apply(r, Write(INT_EN_CLR, 0xFFFF_FFFF)).enabled == {}
  {
    hide Bit;
    BitsOfAll();
    forall i: Slot ensures i !in r.enabled - Bits(0xFFFF_FFFF) {
      assert i in Bits(0xFFFF_FFFF);
    }
  }

  lemma {:induction false} OtherWriteKeepsEnabled(r: Regs, w: Write)
    requires r.Valid() && w.addr != INT_ENABLE && w.addr != INT_EN_CLR
    ensures Apply(r, w).enabled == r.enabled
  {}

  lemma {:induction false} InitAddresses(j: nat)
    requires 1 <= j < |Writes(Init)|
    ensures Writes(Init)[j].addr != INT_ENABLE && Writes(Init)[j].addr != INT_EN_CLR
  {
    if j >= 3 {
      LoopAddresses(0, j - 3);
      assert Writes(Init)[j] == InitLoop(0)[j - 3];
    }
  }

  lemma {:induction false} InitUnfold()
    ensures Writes(Init) ==
            [Write(INT_EN_CLR, 0xFFFF_FFFF), Write(VECT_ADDR, 0), Write(INT_SELECT, 0)] + InitLoop(0)
  {
    hide InitLoop;
  }

  lemma {:induction false} InitLoopStep(i: nat)
    requires i <= VIC_SIZE
    ensures InitLoop(i) ==
            if i == VIC_SIZE then []
            else [Write(VectorAddress(i), 0), Write(PriorityAddress(i), 0xF)] + InitLoop(i + 1)
  {}

  lemma {:induction false} InitFirst()
    ensures Writes(Init)[0] == Write(INT_EN_CLR, 0xFFFF_FFFF)
  {
    hide InitLoop;
  }

  /** From its first write on, a reset has everything disabled. */
  lemma {:induction false} InitDisables(r: Regs, j: nat)
    requires r.Valid() && 1 <= j <= |Writes(Init)|
    ensures ApplyAll(r, Writes(Init)[..j]).enabled == {}
    decreases j
  {
    hide Writes, Apply, ApplyAll;
    var w, before := Writes(Init)[j - 1], Writes(Init)[..j - 1];
    assert Writes(Init)[..j] == before + [w];
    ApplySnoc(r, before, w);
    if j == 1 {
      assert before == [];
      ApplyNothing(r);
      InitFirst();
      DisableAll(r);
    } else {
      InitDisables(r, j - 1);
      InitAddresses(j - 1);
      OtherWriteKeepsEnabled(ApplyAll(r, before), w);
    }
  }

  lemma {:induction false} InitLoopClears(r: Regs, i: nat)
    requires r.Valid() && i <= VIC_SIZE
    ensures var s := ApplyAll(r, InitLoop(i));
            && s.enabled == r.enabled && s.select == r.select && s.current == r.current
            && forall j: Slot :: s.vector[j] == (if j >= i then 0 else r.vector[j]) &&
                                 s.priority[j] == if j >= i then 0xF else r.priority[j]
    decreases VIC_SIZE - i
  {
    hide Apply, ApplyAll;
    if i == VIC_SIZE {
      ApplyNothing(r);
    } else {
      var a, b := Write(VectorAddress(i), 0), Write(PriorityAddress(i), 0xF);
      var r1 := r.(vector := r.vector[i := 0]);
      var r2 := r1.(priority := r1.priority[i := 0xF]);
      AddressesDoNotAlias(r, i, 0);
      AddressesDoNotAlias(r1, i, 0xF);
      ApplyNothing(r);
      ApplySnoc(r, [], a);
      ApplySnoc(r, [a], b);
      assert [] + [a] == [a] && [a] + [b] == [a, b];
      ApplyAllConcat(r, [a, b], InitLoop(i + 1));
      InitLoopClears(r2, i + 1);
    }
  }

  /** What a reset leaves behind, whatever the registers held. */
  lemma {:induction false} InitClears(r: Regs)
    requires r.Valid()
    ensures ApplyAll(r, Writes(Init)) ==
            Regs({}, seq(32, _ => 0), seq(32, _ => 0xF), 0, 0)
  {
    hide Apply, ApplyAll, Writes, InitLoop;
    var first := [Write(INT_EN_CLR, 0xFFFF_FFFF), Write(VECT_ADDR, 0), Write(INT_SELECT, 0)];
    InitUnfold();
    ApplyAllConcat(r, first, InitLoop(0));
    FirstThree(r);
    InitLoopClears(ApplyAll(r, first), 0);
  }

  lemma {:induction false} FirstThree(r: Regs)
    requires r.Valid()
    ensures var s := ApplyAll(r, [Write(INT_EN_CLR, 0xFFFF_FFFF), Write(VECT_ADDR, 0), Write(INT_SELECT, 0)]);
            s.enabled == {} && s.select == 0 && s.current == 0
  {
    hide ApplyAll, Bits;
    var a, b, c := Write(INT_EN_CLR, 0xFFFF_FFFF), Write(VECT_ADDR, 0), Write(INT_SELECT, 0);
    DisableAll(r);
    ApplyNothing(r);
    ApplySnoc(r, [], a);
    ApplySnoc(r, [a], b);
    ApplySnoc(r, [a, b], c);
    assert [] + [a] == [a] && [a] + [b] == [a, b] && [a, b] + [c] == [a, b, c];
  }

  /** The registers after each write of an install in range. */
  lemma {:induction false} InstallSteps(r: Regs, n: Slot, h: Word, p: Word)
    requires r.Valid()
    ensures var ws := Writes(Install(n, h, p));
            var off := r.(enabled := r.enabled - {n});
            && |ws| == 4
            && ApplyAll(r, ws[..1]) == off
            && ApplyAll(r, ws[..2]) == off.(vector := r.vector[n := h])
            && ApplyAll(r, ws[..3]) == off.(vector := r.vector[n := h], priority := r.priority[n := p])
            && ApplyAll(r, ws) == Regs(r.enabled + {n}, r.vector[n := h], r.priority[n := p], r.select, r.current)
  {
    hide Bits, ShiftOne;
    var ws := Writes(Install(n, h, p));
    BitsOfShift(n);
    assert ws[..1][..0] == [] && ws[..2][..1] == ws[..1] && ws[..3][..2] == ws[..2] && ws[..3] == ws[..|ws| - 1];
    var off := r.(enabled := r.enabled - {n});
    assert ApplyAll(r, ws[..1]) == Apply(r, ws[0]) == off;
    AddressesDoNotAlias(off, n, h);
    assert ApplyAll(r, ws[..2]) == Apply(off, ws[1]);
    var set1 := off.(vector := r.vector[n := h]);
    AddressesDoNotAlias(set1, n, p);
    assert ApplyAll(r, ws[..3]) == Apply(set1, ws[2]);
    assert r.enabled - {n} + {n} == r.enabled + {n};
  }

  /** An install keeps the registers intact after each of its writes. */
  lemma {:induction false} InstallIntact(r: Regs, ops: seq<Op>, n: nat, h: Word, p: Word, j: nat)
    requires r.Valid() && Intact(r, ops) && 1 <= j <= |Writes(Install(n, h, p))|
    ensures Intact(ApplyAll(r, Writes(Install(n, h, p))[..j]), ops + [Install(n, h, p)])
    ensures Exact(r, ops) ==> Exact(ApplyAll(r, Writes(Install(n, h, p))), ops + [Install(n, h, p)])
  {
    hide Bits, ShiftOne, ApplyAll, Apply, Latest;
    var op := Install(n, h, p);
    forall i: Slot ensures Latest(ops + [op], i) ==
                           if n == i then Some((h, p))
                           else if n >= VIC_SIZE && i in Selected(n) then None
                           else Latest(ops, i)
    {
      LatestAppend(ops, op, i);
    }
    if n < VIC_SIZE {
      InstallSteps(r, n, h, p);
      assert j == 4 ==> Writes(op)[..j] == Writes(op);
    } else {
      RejectedInstall(r, n, h, p);
      assert Writes(op)[..j] == Writes(op);
    }
  }

  /** An install above the range is rejected, but not without effect: it disables a slot exactly
      when the low byte of its number is in range. */
  lemma {:induction false} RejectedInstall(r: Regs, n: int, h: Word, p: Word)
    requires r.Valid() && n >= 32
    ensures |Writes(Install(n, h, p))| == 1
    ensures ApplyAll(r, Writes(Install(n, h, p))) ==
            if n % 256 < 32 then r.(enabled := r.enabled - {n % 256}) else r
  {
    hide Bits, ShiftOne;
    BitsOfShift(n);
    var ws := Writes(Install(n, h, p));
    assert ws[..0] == [] && ApplyAll(r, ws) == Apply(r, ws[0]);
    assert r.enabled - {} == r.enabled;
  }

  // ----- negative numbers

  /** A write there changes nothing that an enabled slot depends on. */
  predicate Inert(addr: Word) {
    var off := addr - VIC_BASE;
    addr != INT_ENABLE && !(0x100 <= off < 0x180 && off % 4 == 0) && !(0x200 <= off < 0x280 && off % 4 == 0)
  }

  /** The negative numbers that leave every enabled slot as it is: they select no slot and miss
      VICIntEnable and both tables. */
  predicate Tearless(n: int) {
    Selected(n) == {} && Inert(VectorAddress(n)) && Inert(PriorityAddress(n))
  }

  /** No register that is modelled has this address. */
  predicate Unmapped(addr: Word) {
    Inert(addr) && addr != INT_EN_CLR && addr != INT_SELECT && addr != VECT_ADDR
  }

  /** The negative numbers that do no harm: they select no slot and miss all the registers. */
  predicate Harmless(n: int) {
    Selected(n) == {} && Unmapped(VectorAddress(n)) && Unmapped(PriorityAddress(n))
  }

  lemma {:induction false} FourWrites(r: Regs, n: int, h: Word, p: Word)
    requires r.Valid() && n < VIC_SIZE
    ensures var ws := Writes(Install(n, h, p));
            && |ws| == 4
            && ApplyAll(r, ws[..1]) == Apply(r, ws[0])
            && ApplyAll(r, ws[..2]) == Apply(Apply(r, ws[0]), ws[1])
            && ApplyAll(r, ws[..3]) == Apply(Apply(Apply(r, ws[0]), ws[1]), ws[2])
            && ApplyAll(r, ws) == Apply(Apply(Apply(Apply(r, ws[0]), ws[1]), ws[2]), ws[3])
  {
    hide Apply, ShiftOne, VectorAddress, PriorityAddress;
    var ws := Writes(Install(n, h, p));
    assert ws[..1][..0] == [] && ws[..2][..1] == ws[..1] && ws[..3][..2] == ws[..2] && ws[..|ws| - 1] == ws[..3];
  }

  lemma {:induction false} InertWrite(r: Regs, w: Write)
    requires r.Valid() && Inert(w.addr)
    ensures Apply(r, w).enabled <= r.enabled && Apply(r, w).vector == r.vector && Apply(r, w).priority == r.priority
  {}

  lemma {:induction false} ShiftWrites(r: Regs, n: int)
    requires r.Valid()
    ensures Apply(r, Write(INT_EN_CLR, ShiftOne(n))) == r.(enabled := r.enabled - Selected(n))
    ensures Apply(r, Write(INT_ENABLE, ShiftOne(n))) == r.(enabled := r.enabled + Selected(n))
  {
    BitsOfShift(n);
  }

  lemma {:induction false} LatestAfterNegative(ops: seq<Op>, n: int, h: Word, p: Word, i: Slot)
    requires n < 0
    ensures Latest(ops + [Install(n, h, p)], i) == Latest(ops, i)
  {
    hide Latest;
    LatestAppend(ops, Install(n, h, p), i);
  }

  /** Such a number keeps the registers intact after each write. */
  lemma {:induction false} TearlessIntact(r: Regs, ops: seq<Op>, n: int, h: Word, p: Word, j: nat)
    requires n < 0 && Tearless(n) && r.Valid() && Intact(r, ops) && 1 <= j <= |Writes(Install(n, h, p))|
    ensures Intact(ApplyAll(r, Writes(Install(n, h, p))[..j]), ops + [Install(n, h, p)])
  {
    hide Apply, ApplyAll, ShiftOne, Latest, Inert;
    FourWrites(r, n, h, p);
    var ws := Writes(Install(n, h, p));
    ShiftWrites(r, n);
    var r1 := Apply(r, ws[0]);
    InertWrite(r1, ws[1]);
    var r2 := Apply(r1, ws[1]);
    InertWrite(r2, ws[2]);
    var r3 := Apply(r2, ws[2]);
    ShiftWrites(r3, n);
    assert j == 4 ==> ws[..j] == ws;
    forall i: Slot ensures Latest(ops + [Install(n, h, p)], i) == Latest(ops, i) {
      LatestAfterNegative(ops, n, h, p, i);
    }
  }

  lemma {:induction false} UnmappedWrite(r: Regs, w: Write)
    requires r.Valid() && Unmapped(w.addr)
    ensures Apply(r, w) == r
  {}

  /** A harmless number changes nothing at any of its writes. */
  lemma {:induction false} HarmlessKeeps(r: Regs, n: int, h: Word, p: Word, j: nat)
    requires n < 0 && Harmless(n) && r.Valid() && j <= |Writes(Install(n, h, p))|
    ensures ApplyAll(r, Writes(Install(n, h, p))[..j]) == r
  {
    hide Apply, ApplyAll, ShiftOne, Unmapped;
    FourWrites(r, n, h, p);
    var ws := Writes(Install(n, h, p));
    ShiftWrites(r, n);
    assert r.enabled - {} == r.enabled == r.enabled + {};
    UnmappedWrite(r, ws[1]);
    UnmappedWrite(r, ws[2]);
    ApplyNothing(r);
    assert j == 4 ==> ws[..j] == ws;
    assert j == 0 ==> ws[..j] == [];
  }

  // ----- whole runs

  predicate TearsNothing(op: Op) {
    op.Install? && op.number < 0 ==> Tearless(op.number)
  }

  predicate Safe(op: Op) {
    op.Install? && op.number < 0 ==> Harmless(op.number)
  }

  lemma {:induction false} OpIntact(r: Regs, ops: seq<Op>, op: Op, j: nat)
    requires r.Valid() && TearsNothing(op) && (op.Init? || Intact(r, ops)) && 1 <= j <= |Writes(op)|
    ensures Intact(ApplyAll(r, Writes(op)[..j]), ops + [op])
  {
    hide Writes, ApplyAll, Intact, Tearless;
    match op
    case Init =>
      InitIntact(r, ops, j);
    case Install(n, h, p) =>
      if n < 0 {
        TearlessIntact(r, ops, n, h, p, j);
      } else {
        InstallIntact(r, ops, n, h, p, j);
      }
  }

  lemma {:induction false} InitIntact(r: Regs, ops: seq<Op>, j: nat)
    requires r.Valid() && 1 <= j <= |Writes(Init)|
    ensures Intact(ApplyAll(r, Writes(Init)[..j]), ops + [Init])
  {
    hide Writes, ApplyAll, Latest;
    InitDisables(r, j);
  }

  lemma {:induction false} InitExact(r: Regs, ops: seq<Op>)
    requires r.Valid()
    ensures Exact(ApplyAll(r, Writes(Init)), ops + [Init])
  {
    hide Writes, ApplyAll, Latest;
    forall i: Slot ensures Latest(ops + [Init], i) == None {
      LatestAppend(ops, Init, i);
    }
    InitClears(r);
  }

  lemma {:induction false} HarmlessExact(r: Regs, ops: seq<Op>, n: int, h: Word, p: Word)
    requires n < 0 && Harmless(n) && r.Valid() && Exact(r, ops)
    ensures Exact(ApplyAll(r, Writes(Install(n, h, p))), ops + [Install(n, h, p)])
  {
    hide Writes, ApplyAll, Latest, Harmless;
    var ws := Writes(Install(n, h, p));
    HarmlessKeeps(r, n, h, p, |ws|);
    assert ws[..|ws|] == ws;
    forall i: Slot ensures Latest(ops + [Install(n, h, p)], i) == Latest(ops, i) {
      LatestAfterNegative(ops, n, h, p, i);
    }
  }

  lemma {:induction false} OpExact(r: Regs, ops: seq<Op>, op: Op)
    requires r.Valid() && Safe(op) && (op.Init? || Exact(r, ops))
    ensures Exact(ApplyAll(r, Writes(op)), ops + [op])
  {
    hide Writes, ApplyAll, Latest, Harmless;
    match op
    case Init =>
      InitExact(r, ops);
    case Install(n, h, p) =>
      if n < 0 {
        HarmlessExact(r, ops, n, h, p);
      } else {
        InstallIntact(r, ops, n, h, p, 1);
      }
  }

  /** After any sequence of resets and installs exactly the slots installed since are enabled,
      each with its latest install, and the other registers are as the reset left them. */
  lemma {:induction false} TraceExact(r: Regs, ops: seq<Op>)
    requires r.Valid() && ops != [] && ops[0] == Init && forall i :: 0 <= i < |ops| ==> Safe(ops[i])
    ensures Exact(ApplyAll(r, Trace(ops)), ops)
  {
    hide Writes, ApplyAll, Exact, Safe;
    var init, op := ops[..|ops| - 1], ops[|ops| - 1];
    assert ops == init + [op];
    ApplyAllConcat(r, Trace(init), Writes(op));
    if init != [] {
      TraceExact(r, init);
    }
    OpExact(ApplyAll(r, Trace(init)), init, op);
  }

  lemma {:induction false} AllBegun(ops: seq<Op>)
    ensures ops[..Begun(ops, |Trace(ops)|)] == ops
  {
    hide Writes;
  }

  lemma {:induction false} LastOpIntact(r: Regs, init: seq<Op>, op: Op, j: nat)
    requires r.Valid() && TearsNothing(op) && 1 <= j <= |Writes(op)|
    requires op.Init? || Intact(ApplyAll(r, Trace(init)), init)
    ensures Intact(ApplyAll(r, Trace(init) + Writes(op)[..j]), init + [op])
  {
    hide Writes, ApplyAll, Intact, TearsNothing, Trace;
    ApplyAllConcat(r, Trace(init), Writes(op)[..j]);
    OpIntact(ApplyAll(r, Trace(init)), init, op, j);
  }

  /** Starting from any register contents with a reset, and stopping after any number of writes
      of any sequence of resets and installs, every enabled slot holds the handler and the
      priority of the latest install on it. */
  lemma {:induction false} NeverTorn(r: Regs, ops: seq<Op>, k: nat)
    requires r.Valid() && ops != [] && ops[0] == Init && 1 <= k <= |Trace(ops)|
    requires forall i :: 0 <= i < |ops| ==> TearsNothing(ops[i])
    ensures Intact(ApplyAll(r, Trace(ops)[..k]), ops[..Begun(ops, k)])
  {
    hide Writes, ApplyAll, Intact, TearsNothing;
    var init, op := ops[..|ops| - 1], ops[|ops| - 1];
    var n := |Trace(init)|;
    if k > n {
      assert ops == init + [op] && ops[..|ops|] == ops;
      if init != [] {
        NeverTorn(r, init, n);
        assert Trace(init)[..n] == Trace(init);
        AllBegun(init);
      }
      LastOpIntact(r, init, op, k - n);
      assert Trace(ops)[..k] == Trace(init) + Writes(op)[..k - n];
    } else {
      assert Trace(ops)[..k] == Trace(init)[..k];
      NeverTorn(r, init, k);
      assert init[..Begun(init, k)] == ops[..Begun(ops, k)];
    }
  }

  // ----- the other negative numbers

  /** The registers after a reset, and after a reset and one install on slot `i`. */
  function NoneInstalled(): (r: Regs)
    ensures r.Valid()
  {
    Regs({}, seq(VIC_SIZE, _ => 0), seq(VIC_SIZE, _ => 0xF), 0, 0)
  }

  function OneInstalled(i: Slot): (r: Regs)
    ensures r.Valid()
  {
    var r := NoneInstalled();
    Regs({i}, r.vector, r.priority[i := 0], 0, 0)
  }

  lemma {:induction false} TraceSnoc(r: Regs, ops: seq<Op>, op: Op)
    requires r.Valid()
    ensures ApplyAll(r, Trace(ops + [op])) == ApplyAll(ApplyAll(r, Trace(ops)), Writes(op))
  {
    hide ApplyAll, Writes;
    assert (ops + [op])[..|ops|] == ops;
    ApplyAllConcat(r, Trace(ops), Writes(op));
  }

  lemma {:induction false} TraceInstalled(r: Regs, i: Slot)
    requires r.Valid()
    ensures ApplyAll(r, Trace([Init])) == NoneInstalled()
    ensures ApplyAll(r, Trace([Init, Install(i, 0, 0)])) == OneInstalled(i)
  {
    hide ApplyAll, Writes, Trace;
    var none := NoneInstalled();
    TraceSnoc(r, [], Init);
    TraceNothing(r);
    assert [] + [Init] == [Init];
    InitClears(r);
    TraceSnoc(r, [Init], Install(i, 0, 0));
    assert [Init] + [Install(i, 0, 0)] == [Init, Install(i, 0, 0)];
    InstallSteps(none, i, 0, 0);
    assert none.vector[i := 0] == none.vector && {} + {i} == {i};
  }

  lemma {:induction false} TraceNothing(r: Regs)
    requires r.Valid()
    ensures ApplyAll(r, Trace([])) == r
  {}

  lemma {:induction false} SmallBits()
    ensures Bits(0) == {} && Bits(1) == {0}
  {
    hide Bits;
    BitsOfShift(32);
    BitsOfShift(0);
  }

  lemma {:induction false} EnablesUninstalled(n: int)
    requires n < 0 && (Selected(n) != {} || VectorAddress(n) == INT_ENABLE || PriorityAddress(n) == INT_ENABLE)
    ensures !Intact(ApplyAll(NoneInstalled(), Writes(Install(n, 1, 1))), [Init] + [Install(n, 1, 1)])
  {
    hide ApplyAll, ShiftOne, Bits, Latest;
    var r := NoneInstalled();
    FourWrites(r, n, 1, 1);
    var ws := Writes(Install(n, 1, 1));
    SmallBits();
    ShiftWrites(r, n);
    var r3 := Apply(Apply(Apply(r, ws[0]), ws[1]), ws[2]);
    ShiftWrites(r3, n);
    var i: Slot := if Selected(n) != {} then n % 256 else 0;
    assert i in ApplyAll(r, ws).enabled;
    LatestAfterNegative([Init], n, 1, 1, i);
    JustReset(i);
  }

  lemma {:induction false} JustReset(i: Slot)
    ensures Latest([Init], i) == None
  {}

  /** The address is that of a table entry of slot `i`. */
  predicate Reaches(addr: Word, i: Slot) {
    addr == VectorAddress(i) || addr == PriorityAddress(i)
  }

  lemma {:induction false} InertOrReaches(addr: Word)
    requires !Inert(addr) && addr != INT_ENABLE
    ensures exists i: Slot :: Reaches(addr, i)
  {
    var off := addr - VIC_BASE;
    var i: Slot := if off < 0x200 then (off - 0x100) / 4 else (off - 0x200) / 4;
    assert Reaches(addr, i);
  }

  lemma {:induction false} Overwrites(n: int, i: Slot, h: Word, p: Word)
    requires n < 0 && Selected(n) == {}
    requires if Reaches(VectorAddress(n), i) then h == 1 && p == 0
             else h == 0 && p == 1 && Reaches(PriorityAddress(n), i) && Inert(VectorAddress(n))
    ensures !Intact(ApplyAll(OneInstalled(i), Writes(Install(n, h, p))), [Init, Install(i, 0, 0)] + [Install(n, h, p)])
  {
    hide ApplyAll, Apply, ShiftOne, Bits, Latest, Intact, Reaches, Inert, VectorAddress, PriorityAddress;
    AddressStep(n);
    var r := OneInstalled(i);
    FourWrites(r, n, h, p);
    var ws := Writes(Install(n, h, p));
    SmallBits();
    ShiftWrites(r, n);
    assert r.enabled - {} == r.enabled;
    var r2 := Apply(r, ws[1]);
    var r3 := Apply(r2, ws[2]);
    ShiftWrites(r3, n);
    Overwritten(r, ws[1], ws[2], i);
    var s := ApplyAll(r, ws);
    assert s == r3.(enabled := r3.enabled + {});
    var ops := [Init, Install(i, 0, 0)];
    LatestAfterNegative(ops, n, h, p, i);
    LastInstalled(i);
    NotIntact(s, ops + [Install(n, h, p)], i);
  }

  lemma {:induction false} AddressStep(n: int)
    ensures PriorityAddress(n) == ToWord(VectorAddress(n) + 0x100)
  {}

  lemma {:induction false} LastInstalled(i: Slot)
    ensures Latest([Init, Install(i, 0, 0)], i) == Some((0, 0))
  {}

  lemma {:induction false} NotIntact(r: Regs, ops: seq<Op>, i: Slot)
    requires r.Valid() && i in r.enabled && Latest(ops, i) == Some((0, 0))
    requires r.vector[i] != 0 || r.priority[i] != 0
    ensures !Intact(r, ops)
  {
    hide Latest;
  }

  /** Whichever of the two writes reaches the slot, its entry is no longer zero and it is still
      enabled. */
  lemma {:induction false} Overwritten(r: Regs, v: Write, w: Write, i: Slot)
    requires r == OneInstalled(i) && w.addr == ToWord(v.addr + 0x100)
    requires if Reaches(v.addr, i) then v.value == 1 && w.value == 0
             else v.value == 0 && w.value == 1 && Reaches(w.addr, i) && Inert(v.addr)
    ensures var s := Apply(Apply(r, v), w);
            i in s.enabled && (s.vector[i] != 0 || s.priority[i] != 0)
  {
    hide Apply, Inert;
    if Reaches(v.addr, i) {
      AddressesDoNotAlias(r, i, 1);
      ZeroElsewhere(Apply(r, v), w, i);
    } else {
      SmallBits();
      ZeroWrite(r, v);
      InertWrite(r, v);
      AddressesDoNotAlias(Apply(r, v), i, 1);
    }
  }

  /** A zero written 0x100 above an entry of a slot spares that entry. */
  lemma {:induction false} ZeroElsewhere(r: Regs, w: Write, i: Slot)
    requires r.Valid() && w.value == 0 && i in r.enabled
    requires || (w.addr == ToWord(VectorAddress(i) + 0x100) && r.vector[i] != 0)
             || (w.addr == ToWord(PriorityAddress(i) + 0x100) && r.priority[i] != 0)
    ensures var s := Apply(r, w);
            i in s.enabled && (s.vector[i] != 0 || s.priority[i] != 0)
  {
    hide Bits;
    SmallBits();
  }

  lemma {:induction false} ZeroWrite(r: Regs, w: Write)
    requires r.Valid() && w.value == 0
    ensures Apply(r, w).enabled == r.enabled
  {
    hide Bits;
    SmallBits();
  }

  /** Any negative number that is not tearless can break the registers: after the calls found here, an install
      with that number leaves an enabled slot that does not hold its latest install, whatever
      the registers held at first. */
  lemma {:induction false} OthersTear(n: int) returns (ops: seq<Op>, h: Word, p: Word)
    requires n < 0 && !Tearless(n)
    ensures ops != [] && ops[0] == Init && forall i :: 0 <= i < |ops| ==> Safe(ops[i])
    ensures forall r: Regs :: r.Valid() ==>
              !Intact(ApplyAll(r, Trace(ops + [Install(n, h, p)])), ops + [Install(n, h, p)])
  {
    ghost var s: Regs;
    s, ops, h, p := OthersTearStep(n);
    hide ApplyAll, Trace, Writes, Intact;
    var op := Install(n, h, p);
    forall r: Regs | r.Valid() ensures !Intact(ApplyAll(r, Trace(ops + [op])), ops + [op]) {
      TraceSnoc(r, ops, op);
      assert ApplyAll(r, Trace(ops)) == s;
    }
  }

  lemma {:induction false} OthersTearStep(n: int) returns (s: Regs, ops: seq<Op>, h: Word, p: Word)
    requires n < 0 && !Tearless(n)
    ensures s.Valid() && ops != [] && ops[0] == Init && forall i :: 0 <= i < |ops| ==> Safe(ops[i])
    ensures forall r: Regs {:trigger ApplyAll(r, Trace(ops))} :: r.Valid() ==> ApplyAll(r, Trace(ops)) == s
    ensures !Intact(ApplyAll(s, Writes(Install(n, h, p))), ops + [Install(n, h, p)])
  {
    hide ApplyAll, Trace, Writes, Intact, Inert, Selected, VectorAddress, PriorityAddress, NoneInstalled, OneInstalled;
    var va, pa := VectorAddress(n), PriorityAddress(n);
    var i: Slot := 0;
    if Selected(n) != {} || va == INT_ENABLE || pa == INT_ENABLE {
      s, ops, h, p := NoneInstalled(), [Init], 1, 1;
      EnablesUninstalled(n);
    } else if !Inert(va) {
      InertOrReaches(va);
      i :| Reaches(va, i);
      s, ops, h, p := OneInstalled(i), [Init, Install(i, 0, 0)], 1, 0;
      Overwrites(n, i, 1, 0);
    } else {
      InertOrReaches(pa);
      i :| Reaches(pa, i);
      InertReachesNothing(va, i);
      s, ops, h, p := OneInstalled(i), [Init, Install(i, 0, 0)], 0, 1;
      Overwrites(n, i, 0, 1);
    }
    forall r: Regs | r.Valid() ensures ApplyAll(r, Trace(ops)) == s {
      TraceInstalled(r, i);
    }
  }

  // A tearless number that is not harmless still reaches a register.

  /** The install on slot 0 is lost, or a register does not hold what the reset stored. */
  predicate Spoilt(r: Regs) {
    0 !in r.enabled || r.select != 0 || r.current != 0
  }

  lemma {:induction false} SpoiltWrite(r: Regs, w: Write)
    requires r.Valid() && Inert(w.addr) && w.value == 1
    ensures Spoilt(r) || !Unmapped(w.addr) ==> Spoilt(Apply(r, w))
  {
    hide Bits;
    SmallBits();
  }

  lemma {:induction false} SpoiltNotExact(r: Regs, ops: seq<Op>)
    requires r.Valid() && Spoilt(r) && Latest(ops, 0).Some?
    ensures !Exact(r, ops)
  {
    hide Latest, Intact;
  }

  lemma {:induction false} TearlessSpoils(n: int)
    requires n < 0 && Tearless(n) && !Harmless(n)
    ensures var ops := [Init, Install(0, 0, 0)];
            !Exact(ApplyAll(OneInstalled(0), Writes(Install(n, 1, 1))), ops + [Install(n, 1, 1)])
  {
    hide ApplyAll, Apply, ShiftOne, Latest, Exact, Inert, Unmapped, VectorAddress, PriorityAddress, OneInstalled;
    var r, ops := OneInstalled(0), [Init, Install(0, 0, 0)];
    FourWrites(r, n, 1, 1);
    var ws := Writes(Install(n, 1, 1));
    ShiftWrites(r, n);
    assert r.enabled - {} == r.enabled;
    SpoiltWrite(r, ws[1]);
    var r2 := Apply(r, ws[1]);
    SpoiltWrite(r2, ws[2]);
    var r3 := Apply(r2, ws[2]);
    ShiftWrites(r3, n);
    assert r3.enabled + {} == r3.enabled;
    LatestAfterNegative(ops, n, 1, 1, 0);
    LastInstalled(0);
    SpoiltNotExact(ApplyAll(r, ws), ops + [Install(n, 1, 1)]);
  }

  /** Any negative number that is not harmless spoils some run: after the calls found here, an
      install with that number tears or loses an install or changes another register, whatever
      the registers held at first. */
  lemma {:induction false} OthersSpoil(n: int) returns (ops: seq<Op>, h: Word, p: Word)
    requires n < 0 && !Harmless(n)
    ensures ops != [] && ops[0] == Init && forall i :: 0 <= i < |ops| ==> Safe(ops[i])
    ensures forall r: Regs :: r.Valid() ==>
              !Exact(ApplyAll(r, Trace(ops + [Install(n, h, p)])), ops + [Install(n, h, p)])
  {
    hide ApplyAll, Trace, Writes, Intact, Tearless, Harmless, OneInstalled;
    if Tearless(n) {
      ops, h, p := [Init, Install(0, 0, 0)], 1, 1;
      TearlessSpoils(n);
      forall r: Regs | r.Valid()
        ensures !Exact(ApplyAll(r, Trace(ops + [Install(n, 1, 1)])), ops + [Install(n, 1, 1)])
      {
        TraceSnoc(r, ops, Install(n, 1, 1));
        TraceInstalled(r, 0);
      }
    } else {
      ops, h, p := OthersTear(n);
    }
  }

  /** The handler address of interrupt -60 goes straight into VICIntEnable; the priority of -123
      goes into VICIntEnClr and that of -125 into VICIntSelect; -1 happens to miss everything. */
  lemma {:induction false} NegativeExamples()
    ensures VectorAddress(-60) == INT_ENABLE && !Tearless(-60)
    ensures PriorityAddress(-123) == INT_EN_CLR && Tearless(-123) && !Harmless(-123)
    ensures PriorityAddress(-125) == INT_SELECT && Tearless(-125) && !Harmless(-125)
    ensures Harmless(-1)
  {}

  /** A run that loses an install: number -123 with priority 1 disables slot 0. */
  lemma {:induction false} InstallLost(r: Regs)
    requires r.Valid()
    ensures var ops := [Init, Install(0, 0, 0), Install(-123, 0, 1)];
            Latest(ops, 0).Some? && 0 !in ApplyAll(r, Trace(ops)).enabled
  {
    hide ApplyAll, Apply, Trace, ShiftOne, Latest, Bits, VectorAddress, PriorityAddress;
    var ops, op := [Init, Install(0, 0, 0)], Install(-123, 0, 1);
    assert ops + [op] == [Init, Install(0, 0, 0), Install(-123, 0, 1)];
    TraceSnoc(r, ops, op);
    TraceInstalled(r, 0);
    var one := OneInstalled(0);
    LatestAfterNegative(ops, -123, 0, 1, 0);
    LastInstalled(0);
    FourWrites(one, -123, 0, 1);
    var ws := Writes(op);
    NegativeExamples();
    ShiftWrites(one, -123);
    assert one.enabled - {} == one.enabled;
    var r2 := Apply(one, ws[1]);
    ClearsFirst(r2);
    ShiftWrites(Apply(r2, ws[2]), -123);
  }

  lemma {:induction false} ClearsFirst(r: Regs)
    requires r.Valid()
    ensures 0 !in Apply(r, Write(INT_EN_CLR, 1)).enabled
  {
    hide Bits;
    SmallBits();
  }

  lemma {:induction false} InertReachesNothing(addr: Word, i: Slot)
    requires Inert(addr)
    ensures !Reaches(addr, i)
  {}

  // ----- the code

  class Controller {
    var regs: Regs
    ghost var trace: seq<Write>  // every write made so far

    ghost predicate Valid()
      reads this
    {
      regs.Valid()
    }

    constructor (regs: Regs)
      requires regs.Valid()
      ensures Valid() && this.regs == regs && trace == []
    {
      this.regs := regs;
      trace := [];
    }

    /** One store to a controller register. */
    method Store(addr: Word, value: Word)
      requires Valid()
      modifies this
      ensures Valid() && regs == Apply(old(regs), Write(addr, value))
      ensures trace == old(trace) + [Write(addr, value)]
    {
      regs := Apply(regs, Write(addr, value));
      trace := trace + [Write(addr, value)];
    }

    method InitVIC()
      requires Valid()
      modifies this
      ensures Valid() && regs == ApplyAll(old(regs), Writes(Init)) && trace == old(trace) + Writes(Init)
    {
      hide Apply, ApplyAll, Writes, InitLoop, VectorAddress, PriorityAddress;
      InitUnfold();
      ghost var first := [Write(INT_EN_CLR, 0xFFFF_FFFF), Write(VECT_ADDR, 0), Write(INT_SELECT, 0)];
      ApplyNothing(regs);
      Store(INT_EN_CLR, 0xFFFF_FFFF);
      ApplySnoc(old(regs), [], first[0]);
      Store(VECT_ADDR, 0);
      ApplySnoc(old(regs), [first[0]], first[1]);
      Store(INT_SELECT, 0);
      ApplySnoc(old(regs), [first[0], first[1]], first[2]);
      ghost var done := [first[0]] + [first[1]] + [first[2]];
      assert done == first && [] + [first[0]] == [first[0]] && [first[0]] + [first[1]] == [first[0], first[1]];
      var i := 0;
      while i < VIC_SIZE
        invariant 0 <= i <= VIC_SIZE && Valid()
        invariant Writes(Init) == done + InitLoop(i)
        invariant regs == ApplyAll(old(regs), done) && trace == old(trace) + done
      {
        ghost var a, b := Write(VectorAddress(i), 0), Write(PriorityAddress(i), 0xF);
        InitLoopStep(i);
        assert done + ([a, b] + InitLoop(i + 1)) == done + [a] + [b] + InitLoop(i + 1);
        ApplySnoc(old(regs), done, a);
        ApplySnoc(old(regs), done + [a], b);
        Store(VectorAddress(i), 0x0);
        Store(PriorityAddress(i), 0xF);
        done := done + [a] + [b];
        i := i + 1;
      }
      InitLoopStep(i);
      assert done + [] == done;
    }

    /** 1 for TRUE, 0 for FALSE. A negative number is not rejected. */
    method InstallIrq(intNumber: int, handlerAddr: Word, priority: Word) returns (r: int)
      requires Valid()
      modifies this
      ensures Valid()
      ensures var ws := Writes(Install(intNumber, handlerAddr, priority));
              regs == ApplyAll(old(regs), ws) && trace == old(trace) + ws
      ensures r == if intNumber < 32 then 1 else 0
    {
      hide Apply, ShiftOne;
      ghost var ws := Writes(Install(intNumber, handlerAddr, priority));
      Store(INT_EN_CLR, ShiftOne(intNumber));
      assert ws[..1][..0] == [] && ws[..1] == [ws[0]] && regs == ApplyAll(old(regs), ws[..1]);
      if intNumber >= VIC_SIZE {
        assert ws == ws[..1];
        return 0;
      }
      Store(VectorAddress(intNumber), handlerAddr);
      assert ws[..2][..1] == ws[..1] && regs == ApplyAll(old(regs), ws[..2]);
      Store(PriorityAddress(intNumber), priority);
      assert ws[..3][..2] == ws[..2] && regs == ApplyAll(old(regs), ws[..3]);
      Store(INT_ENABLE, ShiftOne(intNumber));
      assert ws[..|ws| - 1] == ws[..3];
      return 1;
    }
  }
}
