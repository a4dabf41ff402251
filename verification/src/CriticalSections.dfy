/** VIClowlevel.c: disabling and restoring interrupts on the CPSR, and programs that nest such
    critical sections.
 */
module CriticalSections {

  /** The I bit: interrupts are masked while it is set. */
  const IRQ_MASK: bv32 := 0x80
  const OTHERS: bv32 := 0xFFFF_FF7F

  predicate Masked(cpsr: bv32) {
    cpsr & 0x80 == 0x80
  }

  /** A section is `old = disableIRQ(); body; restoreIRQ(old)`. `Other` is any other code, which
      leaves the CPSR at some value. */
  datatype Stmt = Section(body: Prog) | Enable | Disable | Other(result: bv32)

  datatype Prog = End | Then(first: Stmt, rest: Prog)

  function Restored(now: bv32, saved: bv32): bv32 {
    (now & OTHERS) | (saved & IRQ_MASK)
  }

  function ExecStmt(s: Stmt, c: bv32): bv32 {
    match s
    case Section(body) => Restored(Exec(body, c | IRQ_MASK), c)
    case Enable => c & OTHERS
    case Disable => c | IRQ_MASK
    case Other(r) => r
  }

  /** The CPSR a program leaves behind. */
  function Exec(p: Prog, c: bv32): bv32 {
    match p
    case End => c
    case Then(s, rest) => Exec(rest, ExecStmt(s, c))
  }

  /** Every value the CPSR takes on the way. */
  function StmtStates(s: Stmt, c: bv32): seq<bv32> {
    match s
    case Section(body) => [c | IRQ_MASK] + States(body, c | IRQ_MASK) + [ExecStmt(s, c)]
    case Enable => [ExecStmt(s, c)]
    case Disable => [ExecStmt(s, c)]
    case Other(_) => [ExecStmt(s, c)]
  }

  function States(p: Prog, c: bv32): seq<bv32> {
    match p
    case End => []
    case Then(s, rest) => StmtStates(s, c) + States(rest, ExecStmt(s, c))
  }

  // ----- laws

  lemma {:induction false} EnableDisable(c: bv32)
    ensures !Masked(ExecStmt(Enable, c)) && Masked(ExecStmt(Disable, c))
  {}

  /** A section leaves the mask as it found it, whatever its body did. */
  lemma {:induction false} SectionRestoresMask(body: Prog, c: bv32)
    ensures ExecStmt(Section(body), c) & 0x80 == c & 0x80
  {
    RestoredMask(Exec(body, c | IRQ_MASK), c);
  }

  /** Restoring takes the I bit from the saved value and all others from the present one. */
  lemma {:induction false} RestoredMask(now: bv32, saved: bv32)
    ensures Restored(now, saved) & 0x80 == saved & 0x80
    ensures Restored(now, saved) & 0xFFFF_FF7F == now & 0xFFFF_FF7F
  {}

  /** Sections, and nothing but sections inside them. */
  predicate OnlySections(p: Prog) {
    match p
    case End => true
    case Then(s, rest) => s.Section? && OnlySections(s.body) && OnlySections(rest)
  }

  lemma {:induction false} RestoreUndoesDisable(c: bv32)
    ensures Restored(c | IRQ_MASK, c) == c && Masked(c | IRQ_MASK)
  {}

  /** Nested sections change nothing in the end. */
  lemma {:induction false} SectionsAreTransparent(p: Prog, c: bv32)
    requires OnlySections(p)
    ensures Exec(p, c) == c
  {
    match p
    case End =>
    case Then(s, rest) =>
      SectionsAreTransparent(s.body, c | IRQ_MASK);
      RestoreUndoesDisable(c);
      SectionsAreTransparent(rest, c);
  }

  /** While masked, nested sections never unmask, at any depth. */
  lemma {:induction false} SectionsStayMasked(p: Prog, c: bv32, i: nat)
    requires OnlySections(p) && Masked(c) && i < |States(p, c)|
    ensures Masked(States(p, c)[i])
    decreases p
  {
    var s, rest := p.first, p.rest;
    var n := |StmtStates(s, c)|;
    SectionsAreTransparent(s.body, c | IRQ_MASK);
    RestoreUndoesDisable(c);
    if i >= n {
      SectionsStayMasked(rest, c, i - n);
    } else if 0 < i < n - 1 {
      SectionsStayMasked(s.body, c | IRQ_MASK, i - 1);
    }
  }

  /** A section whose body is made of sections keeps interrupts masked from its disable to its
      restore, even when entered with interrupts on. */
  lemma {:induction false} SectionIsMaskedInside(body: Prog, c: bv32, i: nat)
    requires OnlySections(body) && i + 1 < |StmtStates(Section(body), c)|
    ensures Masked(StmtStates(Section(body), c)[i])
  {
    RestoreUndoesDisable(c);
    if i > 0 {
      SectionsStayMasked(body, c | IRQ_MASK, i - 1);
    }
  }

  /** All bits but the mask. */
  function Rest(cpsr: bv32): bv32 {
    cpsr & 0xFFFF_FF7F
  }

  predicate NoOther(p: Prog) {
    match p
    case End => true
    case Then(s, rest) => !s.Other? && (s.Section? ==> NoOther(s.body)) && NoOther(rest)
  }

  lemma {:induction false} MaskKeepsRest(c: bv32, saved: bv32)
    ensures Rest(c | IRQ_MASK) == Rest(c) && Rest(c & OTHERS) == Rest(c) && Rest(Restored(c, saved)) == Rest(c)
  {
    hide Rest, Restored;
    SetKeepsRest(c);
    ClearKeepsRest(c);
    RestoreKeepsRest(c, saved);
  }

  lemma {:induction false} SetKeepsRest(c: bv32)
    ensures Rest(c | IRQ_MASK) == Rest(c)
  {}

  lemma {:induction false} ClearKeepsRest(c: bv32)
    ensures Rest(c & OTHERS) == Rest(c)
  {}

  lemma {:induction false} RestoreKeepsRest(c: bv32, saved: bv32)
    ensures Rest(Restored(c, saved)) == Rest(c)
  {}

  lemma {:induction false} StmtKeepsRest(s: Stmt, c: bv32)
    requires !s.Other? && (s.Section? ==> NoOther(s.body))
    ensures Rest(ExecStmt(s, c)) == Rest(c)
    decreases s, 1
  {
    hide Rest, Restored;
    MaskKeepsRest(c, c);
    if s.Section? {
      var inner := Exec(s.body, c | IRQ_MASK);
      ExecKeepsRest(s.body, c | IRQ_MASK);
      MaskKeepsRest(inner, c);
    }
  }

  /** The three functions change no other bit of the CPSR, however they are combined. */
  lemma {:induction false} ExecKeepsRest(p: Prog, c: bv32)
    requires NoOther(p)
    ensures Rest(Exec(p, c)) == Rest(c)
    decreases p, 0
  {
    hide ExecStmt, Rest;
    if p.Then? {
      StmtKeepsRest(p.first, c);
      ExecKeepsRest(p.rest, ExecStmt(p.first, c));
    }
  }

  /** Nor does any of the values on the way differ in another bit. */
  lemma {:induction false} StatesKeepRest(p: Prog, c: bv32, i: nat)
    requires NoOther(p) && i < |States(p, c)|
    ensures Rest(States(p, c)[i]) == Rest(c)
    decreases p, 0
  {
    hide ExecStmt, StmtStates, Rest;
    var s, rest := p.first, p.rest;
    var n := |StmtStates(s, c)|;
    if i < n {
      StmtStatesKeepRest(s, c, i);
    } else {
      StmtKeepsRest(s, c);
      StatesKeepRest(rest, ExecStmt(s, c), i - n);
    }
  }

  lemma {:induction false} StmtStatesKeepRest(s: Stmt, c: bv32, i: nat)
    requires !s.Other? && (s.Section? ==> NoOther(s.body)) && i < |StmtStates(s, c)|
    ensures Rest(StmtStates(s, c)[i]) == Rest(c)
    decreases s, 1
  {
    hide ExecStmt, Rest, States;
    StmtKeepsRest(s, c);
    if s.Section? && i < |StmtStates(s, c)| - 1 {
      SetKeepsRest(c);
      if i > 0 {
        StatesKeepRest(s.body, c | IRQ_MASK, i - 1);
      }
    }
  }

  // ----- the code

  class Cpu {
    var cpsr: bv32
    ghost var history: seq<bv32>

    constructor (cpsr: bv32)
      ensures this.cpsr == cpsr && history == []
    {
      this.cpsr := cpsr;
      history := [];
    }

    method SetCpsr(val: bv32)
      modifies this
      ensures cpsr == val && history == old(history) + [val]
    {
      cpsr := val;
      history := history + [val];
    }

    method EnableIRQ() returns (previous: bv32)
      modifies this
      ensures previous == old(cpsr) && cpsr == ExecStmt(Enable, old(cpsr)) && history == old(history) + [cpsr]
    {
      previous := cpsr;
      SetCpsr(previous & !IRQ_MASK);
    }

    method DisableIRQ() returns (previous: bv32)
      modifies this
      ensures previous == old(cpsr) && cpsr == ExecStmt(Disable, old(cpsr)) && history == old(history) + [cpsr]
    {
      previous := cpsr;
      SetCpsr(previous | IRQ_MASK);
    }

    method RestoreIRQ(oldCPSR: bv32) returns (previous: bv32)
      modifies this
      ensures previous == old(cpsr) && cpsr == Restored(old(cpsr), oldCPSR) && history == old(history) + [cpsr]
    {
      previous := cpsr;
      SetCpsr((previous & !IRQ_MASK) | (oldCPSR & IRQ_MASK));
    }

    method ExecuteStmt(s: Stmt)
      modifies this
      ensures cpsr == ExecStmt(s, old(cpsr)) && history == old(history) + StmtStates(s, old(cpsr))
      decreases s, 1
    {
      hide Restored, Exec, States;
      match s
      case Section(body) =>
        var saved := DisableIRQ();
        Execute(body);
        var previous := RestoreIRQ(saved);
      case Enable =>
        var previous := EnableIRQ();
      case Disable =>
        var previous := DisableIRQ();
      case Other(r) =>
        SetCpsr(r);
    }

    /** A program built from the three functions runs as Exec and States say. */
    method Execute(p: Prog)
      modifies this
      ensures cpsr == Exec(p, old(cpsr)) && history == old(history) + States(p, old(cpsr))
      decreases p, 0
    {
      hide ExecStmt, StmtStates;
      if p.Then? {
        ghost var c, before := cpsr, history;
        ExecuteStmt(p.first);
        Execute(p.rest);
        assert before + StmtStates(p.first, c) + States(p.rest, ExecStmt(p.first, c)) == before + States(p, c);
      }
    }
  }
}
