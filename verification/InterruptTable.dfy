/** The interrupt descriptor table: 64-bit handler addresses split across gate fields. */
module InterruptTable {

  const MAX_NUM_INTERRUPTS: nat := 256
  const IDT_SELECTOR: bv16 := 0x8
  const INTERRUPT_GATE_TYPE_ATTR: bv8 := 0x8E

  datatype Gate = Gate(offset1: bv16, selector: bv16, ist: bv8, kind: bv8, offset2: bv16, offset3: bv32, zero: bv32)
  {
    /** The handler address put together from its three parts. */
    function Handler(): bv64 {
      ((offset3 as bv64) << 32) | (((offset2 as bv32) << 16) as bv64) | (offset1 as bv64)
    }
  }

  function Low(addr: bv64): bv16 { (addr & 0xffff) as bv16 }

  function Middle(addr: bv64): bv16 { ((addr >> 16) & 0xffff) as bv16 }

  function High(addr: bv64): bv32 { ((addr >> 32) & 0xffff_ffff) as bv32 }

  function GateFor(addr: bv64, kind: bv8): Gate {
    Gate(Low(addr), IDT_SELECTOR, 0, kind, Middle(addr), High(addr), 0)
  }

  /** No bit of the address is lost in a gate. */
  lemma HandlerOfGate(addr: bv64, kind: bv8)
    ensures GateFor(addr, kind).Handler() == addr
  {
    assert (Low(addr) as bv64) == addr & 0xffff;
    assert (((Middle(addr) as bv32) << 16) as bv64) == addr & 0xffff_0000;
    assert ((High(addr) as bv64) << 32) == addr & 0xffff_ffff_0000_0000;
  }

  /** One call of `set_ir_in_idt`. */
  datatype Call = Call(num: nat, handler: bv64)

  type Table = table: seq<Gate> | |table| == MAX_NUM_INTERRUPTS
    witness seq(MAX_NUM_INTERRUPTS, _ => Gate(0, 0, 0, 0, 0, 0, 0))

  function Install(table: Table, call: Call): Table {
    if call.num >= MAX_NUM_INTERRUPTS || call.handler == 0 then table
    else table[call.num := GateFor(call.handler, INTERRUPT_GATE_TYPE_ATTR)]
  }

  function InstallAll(table: Table, calls: seq<Call>): Table {
    if calls == [] then table
    else Install(InstallAll(table, calls[..|calls| - 1]), calls[|calls| - 1])
  }

  /** The last handler that is not null among those installed at gate `i`. */
  function LastHandler(calls: seq<Call>, i: nat, default: bv64): bv64 {
    if calls == [] then default
    else
      var last := calls[|calls| - 1];
      if last.num == i && last.handler != 0 then last.handler
      else LastHandler(calls[..|calls| - 1], i, default)
  }

  function Defaults(default: bv64): Table {
    seq(MAX_NUM_INTERRUPTS, _ => GateFor(default, INTERRUPT_GATE_TYPE_ATTR))
  }

  /** An interrupt gate of the kernel's code segment that leads to the handler, field by field as the
      processor reads it. */
  ghost predicate LeadsTo(gate: Gate, handler: bv64) {
    && gate.Handler() == handler
    && gate.selector == 8 && gate.ist == 0 && gate.kind == 0x8E && gate.zero == 0
    && gate.offset1 as bv64 == handler % 0x1_0000
    && gate.offset2 as bv64 == handler / 0x1_0000 % 0x1_0000
    && gate.offset3 as bv64 == handler / 0x1_0000_0000
  }

  lemma PartsOf(addr: bv64)
    ensures Low(addr) as bv64 == addr % 0x1_0000
    ensures Middle(addr) as bv64 == addr / 0x1_0000 % 0x1_0000
    ensures High(addr) as bv64 == addr / 0x1_0000_0000
  {}

  lemma GateFields(handler: bv64)
    ensures LeadsTo(GateFor(handler, INTERRUPT_GATE_TYPE_ATTR), handler)
  {
    hide Low, Middle, High;
    PartsOf(handler);
    HandlerOfGate(handler, INTERRUPT_GATE_TYPE_ATTR);
  }

  lemma {:induction false} GateAfter(default: bv64, calls: seq<Call>, i: nat)
    requires i < MAX_NUM_INTERRUPTS
    ensures InstallAll(Defaults(default), calls)[i]
         == GateFor(LastHandler(calls, i, default), INTERRUPT_GATE_TYPE_ATTR)
  {
    hide GateFor;
    if calls != [] {
      GateAfter(default, calls[..|calls| - 1], i);
    }
  }

  /** After any run of calls every gate leads to the last handler installed at it, or to the
      default, and still is an interrupt gate for the kernel's code segment. */
  lemma GatesAfter(default: bv64, calls: seq<Call>, i: nat)
    requires i < 256
    ensures LeadsTo(InstallAll(Defaults(default), calls)[i], LastHandler(calls, i, default))
  {
    hide LeadsTo, GateFor, InstallAll, LastHandler;
    GateAfter(default, calls, i);
    GateFields(LastHandler(calls, i, default));
  }

  class DescriptorTable {
    const gates: array<Gate>

    ghost predicate Valid() { gates.Length == MAX_NUM_INTERRUPTS }

    ghost function Contents(): Table
      requires Valid()
      reads gates
    {
      gates[..]
    }

    constructor (gates: array<Gate>)
      requires gates.Length == MAX_NUM_INTERRUPTS
      ensures Valid() && this.gates == gates
    {
      this.gates := gates;
    }

    /** Number 256 passes the check but has no gate: it is the one number for which a handler that
        is not null is written outside the table. No caller here passes it. */
    method SetInterruptServiceRoutine(num: nat, kind: bv8, handler: bv64)
      requires Valid() && (num == MAX_NUM_INTERRUPTS ==> handler == 0)
      modifies gates
      ensures Contents() == if num > MAX_NUM_INTERRUPTS || handler == 0 then old(Contents())
                            else old(Contents())[num := GateFor(handler, kind)]
    {
      if handler == 0 || num > MAX_NUM_INTERRUPTS {
        return;
      }
      gates[num] := gates[num].(offset1 := Low(handler));
      gates[num] := gates[num].(selector := IDT_SELECTOR);
      gates[num] := gates[num].(ist := 0);
      gates[num] := gates[num].(kind := kind);
      gates[num] := gates[num].(offset2 := Middle(handler));
      gates[num] := gates[num].(offset3 := High(handler));
      gates[num] := gates[num].(zero := 0);
    }

    method SetIrInIdt(num: nat, handler: bv64)
      requires Valid()
      modifies gates
      ensures Contents() == Install(old(Contents()), Call(num, handler))
    {
      if num >= MAX_NUM_INTERRUPTS {
        return;
      }
      SetInterruptServiceRoutine(num, INTERRUPT_GATE_TYPE_ATTR, handler);
    }

    method GetIrFromIdt(num: nat) returns (handler: bv64)
      requires Valid()
      ensures handler == if num < MAX_NUM_INTERRUPTS then Contents()[num].Handler() else 0
    {
      if num >= MAX_NUM_INTERRUPTS {
        return 0;
      }
      var gate := gates[num];
      handler := ((gate.offset3 as bv64) << 32) | (((gate.offset2 as bv32) << 16) as bv64) | (gate.offset1 as bv64);
    }

    /** Clears all but the last byte of the table, then fills every gate. */
    method InitIdt(default: bv64)
      requires Valid() && default != 0
      modifies gates
      ensures Contents() == Defaults(default)
    {
      for i := 0 to MAX_NUM_INTERRUPTS {
        gates[i] := Gate(0, 0, 0, 0, 0, 0, if i + 1 < MAX_NUM_INTERRUPTS then 0 else gates[i].zero & 0xff00_0000);
      }
      for i := 0 to MAX_NUM_INTERRUPTS
        invariant forall k :: 0 <= k < i ==> gates[k] == GateFor(default, INTERRUPT_GATE_TYPE_ATTR)
      {
        ghost var before := Contents();
        SetInterruptServiceRoutine(i, INTERRUPT_GATE_TYPE_ATTR, default);
        assert forall k :: 0 <= k < i ==> gates[k] == before[k];
      }
    }
  }
}
