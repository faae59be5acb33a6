/**
 * The CPU exception layer of kernel/exception/trap.c: the gate table that
 * `init_sys_vector` fills for the architecture-defined vectors 0-20, the two
 * error-code decoders (invalid TSS and page fault) and what every handler
 * reports and does once it has reported.
 *
 * Console output is modelled as the list of lines a handler prints, the CR2
 * read as an event carrying the register's value, and the `while (1);` halt
 * as a disposition value.
 */
module Traps {
  import opened Wrappers

  /** `unsigned long` on x86_64. */
  type Word = bv64

  /** The interrupt descriptor table has 256 vectors. */
  const IDT_SIZE: nat := 256

  type Vector = v: nat | v < IDT_SIZE

  /** The three installers: `set_trap_gate`, `set_intr_gate`, `set_system_trap_gate`. */
  datatype GateKind = TrapGate | InterruptGate | SystemTrapGate

  /** The entry points installed by `init_sys_vector`, one per architecture-defined exception. */
  datatype Handler =
    | DivideError | Debug | Nmi | Int3 | Overflow | Bounds | UndefinedOpcode
    | DevNotAvailable | DoubleFault | CoprocessorSegmentOverrun | InvalidTss
    | SegmentNotExists | StackSegmentFault | GeneralProtection | PageFault
    | X87FpuError | AlignmentCheck | MachineCheck | SimdException
    | VirtualizationException

  /** What one installer call writes into a vector's slot: the kind, the stack index and the handler. */
  datatype Gate = Gate(kind: GateKind, ist: nat, handler: Handler)

  /**
   * The vector number each handler names in its own diagnostic line
   * (`do_divide_error(0)` ... `do_virtualization_exception(20)`): an account
   * of the vectors that is independent of the table `init_sys_vector` writes.
   */
  function VectorOf(h: Handler): (v: Vector)
    ensures v <= 20 && v != 15
  {
    match h
    case DivideError => 0
    case Debug => 1
    case Nmi => 2
    case Int3 => 3
    case Overflow => 4
    case Bounds => 5
    case UndefinedOpcode => 6
    case DevNotAvailable => 7
    case DoubleFault => 8
    case CoprocessorSegmentOverrun => 9
    case InvalidTss => 10
    case SegmentNotExists => 11
    case StackSegmentFault => 12
    case GeneralProtection => 13
    case PageFault => 14
    case X87FpuError => 16
    case AlignmentCheck => 17
    case MachineCheck => 18
    case SimdException => 19
    case VirtualizationException => 20
  }

  /** Distinct handlers report distinct vectors. */
  lemma VectorOfInjective(h1: Handler, h2: Handler)
    ensures VectorOf(h1) == VectorOf(h2) <==> h1 == h2
  {
  }

  /** The gate `init_sys_vector` installs at vector `v`, or None for a vector it does not write. */
  function SysGate(v: Vector): Option<Gate>
  {
    match v
    case 2 => Some(Gate(InterruptGate, 1, Nmi))
    case 3 => Some(Gate(SystemTrapGate, 1, Int3))
    case 4 => Some(Gate(SystemTrapGate, 1, Overflow))
    case 5 => Some(Gate(SystemTrapGate, 1, Bounds))
    case 0 => Some(Gate(TrapGate, 1, DivideError))
    case 1 => Some(Gate(TrapGate, 1, Debug))
    case 6 => Some(Gate(TrapGate, 1, UndefinedOpcode))
    case 7 => Some(Gate(TrapGate, 1, DevNotAvailable))
    case 8 => Some(Gate(TrapGate, 1, DoubleFault))
    case 9 => Some(Gate(TrapGate, 1, CoprocessorSegmentOverrun))
    case 10 => Some(Gate(TrapGate, 1, InvalidTss))
    case 11 => Some(Gate(TrapGate, 1, SegmentNotExists))
    case 12 => Some(Gate(TrapGate, 1, StackSegmentFault))
    case 13 => Some(Gate(TrapGate, 1, GeneralProtection))
    case 14 => Some(Gate(TrapGate, 1, PageFault))
    case 16 => Some(Gate(TrapGate, 1, X87FpuError))
    case 17 => Some(Gate(TrapGate, 1, AlignmentCheck))
    case 18 => Some(Gate(TrapGate, 1, MachineCheck))
    case 19 => Some(Gate(TrapGate, 1, SimdException))
    case 20 => Some(Gate(TrapGate, 1, VirtualizationException))
    case _ => None
  }

  /** The table after `init_sys_vector` has run on table `t`: its twenty writes, in order. */
  function InitTable(t: map<Vector, Gate>): map<Vector, Gate>
  {
    t[0 := Gate(TrapGate, 1, DivideError)]
     [1 := Gate(TrapGate, 1, Debug)]
     [2 := Gate(InterruptGate, 1, Nmi)]
     [3 := Gate(SystemTrapGate, 1, Int3)]
     [4 := Gate(SystemTrapGate, 1, Overflow)]
     [5 := Gate(SystemTrapGate, 1, Bounds)]
     [6 := Gate(TrapGate, 1, UndefinedOpcode)]
     [7 := Gate(TrapGate, 1, DevNotAvailable)]
     [8 := Gate(TrapGate, 1, DoubleFault)]
     [9 := Gate(TrapGate, 1, CoprocessorSegmentOverrun)]
     [10 := Gate(TrapGate, 1, InvalidTss)]
     [11 := Gate(TrapGate, 1, SegmentNotExists)]
     [12 := Gate(TrapGate, 1, StackSegmentFault)]
     [13 := Gate(TrapGate, 1, GeneralProtection)]
     [14 := Gate(TrapGate, 1, PageFault)]
     [16 := Gate(TrapGate, 1, X87FpuError)]
     [17 := Gate(TrapGate, 1, AlignmentCheck)]
     [18 := Gate(TrapGate, 1, MachineCheck)]
     [19 := Gate(TrapGate, 1, SimdException)]
     [20 := Gate(TrapGate, 1, VirtualizationException)]
  }

  /** After initialisation a written vector holds its installed gate; any other vector keeps what it held. */
  lemma InitTableAt(t: map<Vector, Gate>, v: Vector)
    ensures SysGate(v).Some? ==> v in InitTable(t) && InitTable(t)[v] == SysGate(v).value
    ensures SysGate(v).None? ==> (v in InitTable(t) <==> v in t)
    ensures SysGate(v).None? && v in t ==> InitTable(t)[v] == t[v]
  {
  }

  /** Vectors 0-14 and 16-20 are written; 15 and 21-255 are not. */
  lemma SysGateDomain(v: Vector)
    ensures SysGate(v).Some? <==> v <= 20 && v != 15
  {
  }

  /**
   * Vector 2 gets the only interrupt gate, vectors 3, 4 and 5 get system trap
   * gates, every other written vector a trap gate, and every call passes 1.
   */
  lemma SysGateKinds(v: Vector)
    requires SysGate(v).Some?
    ensures SysGate(v).value.kind == InterruptGate <==> v == 2
    ensures SysGate(v).value.kind == SystemTrapGate <==> 3 <= v <= 5
    ensures SysGate(v).value.kind == TrapGate <==> v != 2 && !(3 <= v <= 5)
    ensures SysGate(v).value.ist == 1
  {
  }

  /** Every written vector routes to the handler that reports that same vector, and every handler is installed. */
  lemma SysGateRouting(h: Handler, v: Vector)
    ensures SysGate(v).Some? ==> VectorOf(SysGate(v).value.handler) == v
    ensures SysGate(VectorOf(h)).Some? && SysGate(VectorOf(h)).value.handler == h
  {
  }

  /** Initialising twice leaves the same table as initialising once: the last write wins. */
  lemma InitIdempotent(t: map<Vector, Gate>)
    ensures InitTable(InitTable(t)) == InitTable(t)
  {
    forall v: Vector
      ensures (v in InitTable(InitTable(t)) <==> v in InitTable(t))
        && (v in InitTable(t) ==> InitTable(InitTable(t))[v] == InitTable(t)[v])
    {
      InitTableAt(t, v);
      InitTableAt(InitTable(t), v);
    }
  }

  /** The interrupt descriptor table, written in place by the installers. */
  class GateTable {
    var gates: map<Vector, Gate>

    constructor ()
      ensures gates == map[]
    {
      gates := map[];
    }

    method SetTrapGate(n: Vector, ist: nat, h: Handler)
      modifies this
      ensures gates == old(gates)[n := Gate(TrapGate, ist, h)]
    {
      gates := gates[n := Gate(TrapGate, ist, h)];
    }

    method SetIntrGate(n: Vector, ist: nat, h: Handler)
      modifies this
      ensures gates == old(gates)[n := Gate(InterruptGate, ist, h)]
    {
      gates := gates[n := Gate(InterruptGate, ist, h)];
    }

    method SetSystemTrapGate(n: Vector, ist: nat, h: Handler)
      modifies this
      ensures gates == old(gates)[n := Gate(SystemTrapGate, ist, h)]
    {
      gates := gates[n := Gate(SystemTrapGate, ist, h)];
    }

    /** `init_sys_vector`: twenty installer calls, vector 15 and 21-31 skipped. */
    method InitSysVector()
      modifies this
      ensures gates == InitTable(old(gates))
    {
      SetTrapGate(0, 1, DivideError);
      SetTrapGate(1, 1, Debug);
      SetIntrGate(2, 1, Nmi);
      SetSystemTrapGate(3, 1, Int3);
      SetSystemTrapGate(4, 1, Overflow);
      SetSystemTrapGate(5, 1, Bounds);
      SetTrapGate(6, 1, UndefinedOpcode);
      SetTrapGate(7, 1, DevNotAvailable);
      SetTrapGate(8, 1, DoubleFault);
      SetTrapGate(9, 1, CoprocessorSegmentOverrun);
      SetTrapGate(10, 1, InvalidTss);
      SetTrapGate(11, 1, SegmentNotExists);
      SetTrapGate(12, 1, StackSegmentFault);
      SetTrapGate(13, 1, GeneralProtection);
      SetTrapGate(14, 1, PageFault);
      SetTrapGate(16, 1, X87FpuError);
      SetTrapGate(17, 1, AlignmentCheck);
      SetTrapGate(18, 1, MachineCheck);
      SetTrapGate(19, 1, SimdException);
      SetTrapGate(20, 1, VirtualizationException);
    }
  }

  // ---------------------------------------------------------------------
  // Invalid-TSS error code (selector error code layout)

  datatype DescriptorTable = Gdt | Ldt | Idt

  /** One line of the invalid-TSS decode, in the order they are printed. */
  datatype TssFact = ExternalEvent | RefersTo(table: DescriptorTable) | SelectorIndex(index: Word)

  /** The decode inside `do_invalid_TSS`. */
  function DecodeInvalidTss(code: Word): seq<TssFact>
  {
    (if code & 0x01 != 0 then [ExternalEvent] else [])
    + [RefersTo(if code & 0x02 != 0 then Idt else if code & 0x04 != 0 then Ldt else Gdt)]
    + [SelectorIndex(code & 0xfff8)]
  }

  /** The error-code bits a list of invalid-TSS lines stands for. */
  function EncodeInvalidTss(facts: seq<TssFact>): Word
  {
    (if ExternalEvent in facts then 0x01 else 0)
    | (if RefersTo(Idt) in facts then 0x02 else 0)
    | (if RefersTo(Ldt) in facts then 0x04 else 0)
    | (if |facts| > 0 && facts[|facts| - 1].SelectorIndex? then facts[|facts| - 1].index else 0)
  }

  /** The bits of an error code the invalid-TSS decode reports: bit 2 only while bit 1 is clear, nothing above bit 15. */
  function TssReportedBits(code: Word): Word
  {
    if code & 0x02 != 0 then code & 0xfffb else code & 0xffff
  }

  /** External event iff bit 0; exactly one table, IDT taking precedence over LDT over GDT. */
  lemma InvalidTssFacts(code: Word)
    ensures ExternalEvent in DecodeInvalidTss(code) <==> code & 0x01 != 0
    ensures RefersTo(Idt) in DecodeInvalidTss(code) <==> code & 0x02 != 0
    ensures RefersTo(Ldt) in DecodeInvalidTss(code) <==> code & 0x02 == 0 && code & 0x04 != 0
    ensures RefersTo(Gdt) in DecodeInvalidTss(code) <==> code & 0x02 == 0 && code & 0x04 == 0
    ensures |DecodeInvalidTss(code)| == if code & 0x01 != 0 then 3 else 2
  {
  }

  /** The selector index is a multiple of 8, at most 0xfff8, and blind to bits 16 and up. */
  lemma InvalidTssSelectorIndex(code: Word)
    ensures var facts := DecodeInvalidTss(code);
      facts[|facts| - 1].SelectorIndex?
      && facts[|facts| - 1].index & 0x7 == 0
      && facts[|facts| - 1].index <= 0xfff8
      && facts[|facts| - 1] == DecodeInvalidTss(code & 0xffff)[|facts| - 1]
  {
  }

  /** Re-encoding the printed lines gives back exactly the reported bits. */
  lemma InvalidTssRoundTrip(code: Word)
    ensures EncodeInvalidTss(DecodeInvalidTss(code)) == TssReportedBits(code)
  {
    EncodeDecodedTss(code);
    TssBits(code);
  }

  /** The encoder reads each printed line back as the bit that produced it. */
  lemma EncodeDecodedTss(code: Word)
    ensures EncodeInvalidTss(DecodeInvalidTss(code))
      == (if code & 0x01 != 0 then 0x01 else 0)
         | (if code & 0x02 != 0 then 0x02 else 0)
         | (if code & 0x02 == 0 && code & 0x04 != 0 then 0x04 else 0)
         | (code & 0xfff8)
  {
    var facts := DecodeInvalidTss(code);
    InvalidTssFacts(code);
    assert facts[|facts| - 1] == SelectorIndex(code & 0xfff8);
  }

  lemma TssBits(code: Word)
    ensures TssReportedBits(code)
      == (if code & 0x01 != 0 then 0x01 else 0)
         | (if code & 0x02 != 0 then 0x02 else 0)
         | (if code & 0x02 == 0 && code & 0x04 != 0 then 0x04 else 0)
         | (code & 0xfff8)
  {
  }

  /** Two error codes print the same invalid-TSS lines exactly when their reported bits agree. */
  lemma InvalidTssDecodeDetermines(c1: Word, c2: Word)
    ensures DecodeInvalidTss(c1) == DecodeInvalidTss(c2) <==> TssReportedBits(c1) == TssReportedBits(c2)
  {
    InvalidTssRoundTrip(c1);
    InvalidTssRoundTrip(c2);
    if TssReportedBits(c1) == TssReportedBits(c2) {
      TssReportedParts(c1);
      TssReportedParts(c2);
    }
  }

  /** The reported bits determine bits 0, 1 and 3-15, and bit 2 while bit 1 is clear. */
  lemma TssReportedParts(c: Word)
    ensures TssReportedBits(c) & 0x01 == c & 0x01
    ensures TssReportedBits(c) & 0x02 == c & 0x02
    ensures TssReportedBits(c) & 0xfff8 == c & 0xfff8
    ensures c & 0x02 == 0 ==> TssReportedBits(c) & 0x04 == c & 0x04
  {
  }

  /** 0x2 refers to the IDT with index 0; 0x13 to the IDT with index 0x10, bit 2 unread; 0x15 to the LDT with index 0x10. */
  lemma InvalidTssExamples()
    ensures DecodeInvalidTss(0x2) == [RefersTo(Idt), SelectorIndex(0)]
    ensures DecodeInvalidTss(0x13) == [ExternalEvent, RefersTo(Idt), SelectorIndex(0x10)]
    ensures DecodeInvalidTss(0x15) == [ExternalEvent, RefersTo(Ldt), SelectorIndex(0x10)]
  {
  }

  // ---------------------------------------------------------------------
  // Page-fault error code

  /** One line of the page-fault decode, in the order they are printed. */
  datatype PageFaultFact =
    | PageNotPresent
    | DuringWrite | DuringRead
    | UserLevel | SupervisorLevel
    | ReservedBit
    | InstructionFetch

  /** The decode inside `do_page_fault`. */
  function DecodePageFault(code: Word): seq<PageFaultFact>
  {
    (if code & 0x01 == 0 then [PageNotPresent] else [])
    + [if code & 0x02 != 0 then DuringWrite else DuringRead]
    + [if code & 0x04 != 0 then UserLevel else SupervisorLevel]
    + (if code & 0x08 != 0 then [ReservedBit] else [])
    + (if code & 0x10 != 0 then [InstructionFetch] else [])
  }

  /** The error-code bits a list of page-fault lines stands for. */
  function EncodePageFault(facts: seq<PageFaultFact>): Word
  {
    (if PageNotPresent in facts then 0 else 0x01)
    | (if DuringWrite in facts then 0x02 else 0)
    | (if UserLevel in facts then 0x04 else 0)
    | (if ReservedBit in facts then 0x08 else 0)
    | (if InstructionFetch in facts then 0x10 else 0)
  }

  /** Each line depends on its own bit only; write/read and user/supervisor are exclusive alternatives. */
  lemma PageFaultFacts(code: Word)
    ensures PageNotPresent in DecodePageFault(code) <==> code & 0x01 == 0
    ensures DuringWrite in DecodePageFault(code) <==> code & 0x02 != 0
    ensures DuringRead in DecodePageFault(code) <==> code & 0x02 == 0
    ensures UserLevel in DecodePageFault(code) <==> code & 0x04 != 0
    ensures SupervisorLevel in DecodePageFault(code) <==> code & 0x04 == 0
    ensures ReservedBit in DecodePageFault(code) <==> code & 0x08 != 0
    ensures InstructionFetch in DecodePageFault(code) <==> code & 0x10 != 0
  {
  }

  /** Re-encoding the printed lines gives back the five low bits of the error code. */
  lemma PageFaultRoundTrip(code: Word)
    ensures EncodePageFault(DecodePageFault(code)) == code & 0x1f
  {
    PageFaultFacts(code);
    PageFaultBits(code);
  }

  lemma PageFaultBits(code: Word)
    ensures code & 0x1f
      == (if code & 0x01 == 0 then 0 else 0x01)
         | (if code & 0x02 != 0 then 0x02 else 0)
         | (if code & 0x04 != 0 then 0x04 else 0)
         | (if code & 0x08 != 0 then 0x08 else 0)
         | (if code & 0x10 != 0 then 0x10 else 0)
  {
  }

  /** Two error codes print the same page-fault lines exactly when their five low bits agree. */
  lemma PageFaultDecodeDetermines(c1: Word, c2: Word)
    ensures DecodePageFault(c1) == DecodePageFault(c2) <==> c1 & 0x1f == c2 & 0x1f
  {
    PageFaultRoundTrip(c1);
    PageFaultRoundTrip(c2);
    if c1 & 0x1f == c2 & 0x1f {
      PageFaultSameBits(c1, c2);
    }
  }

  lemma PageFaultSameBits(c1: Word, c2: Word)
    requires c1 & 0x1f == c2 & 0x1f
    ensures c1 & 0x01 == c2 & 0x01 && c1 & 0x02 == c2 & 0x02 && c1 & 0x04 == c2 & 0x04
    ensures c1 & 0x08 == c2 & 0x08 && c1 & 0x10 == c2 & 0x10
  {
  }

  /** 0x0: not present, read, supervisor; 0x7: write, user and no not-present line; 0x10: instruction fetch. */
  lemma PageFaultExamples()
    ensures DecodePageFault(0x0) == [PageNotPresent, DuringRead, SupervisorLevel]
    ensures DecodePageFault(0x7) == [DuringWrite, UserLevel]
    ensures InstructionFetch in DecodePageFault(0x10)
  {
  }

  // ---------------------------------------------------------------------
  // Handlers

  /** The label each handler prints between brackets. */
  datatype Severity = Error | ErrorTrap | Interrupt | Trap | Terminate

  /** The two fields of `struct pt_regs` the handlers print. */
  datatype Regs = Regs(rsp: Word, rip: Word)

  /** A line a handler prints. */
  datatype Line =
    | Header(severity: Severity, vector: Vector, errorCode: Word, rsp: Word, rip: Word, cr2: Option<Word>)
    | Information
    | Tss(tss: TssFact)
    | Fault(fault: PageFaultFact)
    | BlankLine

  /** What a handler does, in order: read CR2 or print a line. */
  datatype Event = ReadCr2 | Print(line: Line)

  /** How a handler ends: the `while (1);` loop, or a return to its caller. */
  datatype Disposition = Halt | Return

  datatype Run = Run(events: seq<Event>, disposition: Disposition)

  function SeverityOf(h: Handler): Severity
  {
    match h
    case Debug => ErrorTrap
    case Nmi => Interrupt
    case Int3 => Trap
    case Overflow => Trap
    case DoubleFault => Terminate
    case _ => Error
  }

  /** The label table: Terminate for the double fault only, INT for NMI, TRAP for #BP and #OF, ERROR / TRAP for #DB. */
  lemma SeverityTable(h: Handler)
    ensures SeverityOf(h) == Terminate <==> h == DoubleFault
    ensures SeverityOf(h) == Interrupt <==> h == Nmi
    ensures SeverityOf(h) == Trap <==> h == Int3 || h == Overflow
    ensures SeverityOf(h) == ErrorTrap <==> h == Debug
    ensures SeverityOf(h) == Error <==> VectorOf(h) !in {1, 2, 3, 4, 8}
  {
  }

  function TssLines(facts: seq<TssFact>): (events: seq<Event>)
    ensures |events| == |facts|
    ensures forall k :: 0 <= k < |facts| ==> events[k] == Print(Tss(facts[k]))
  {
    if facts == [] then [] else [Print(Tss(facts[0]))] + TssLines(facts[1..])
  }

  function FaultLines(facts: seq<PageFaultFact>): (events: seq<Event>)
    ensures |events| == |facts|
    ensures forall k :: 0 <= k < |facts| ==> events[k] == Print(Fault(facts[k]))
  {
    if facts == [] then [] else [Print(Fault(facts[0]))] + FaultLines(facts[1..])
  }

  /**
   * One handler invocation: `regs` and `errorCode` as the entry code passes
   * them, `cr2` the value the fault-address register holds on entry.
   */
  function Handle(h: Handler, regs: Regs, errorCode: Word, cr2: Word): Run
  {
    var header := Header(SeverityOf(h), VectorOf(h), errorCode, regs.rsp, regs.rip, None);
    match h
    case InvalidTss =>
      Run([Print(header), Print(Information)] + TssLines(DecodeInvalidTss(errorCode)) + [Print(BlankLine)], Halt)
    case PageFault =>
      Run([ReadCr2, Print(header.(cr2 := Some(cr2))), Print(Information)] + FaultLines(DecodePageFault(errorCode)), Halt)
    case GeneralProtection =>
      Run([Print(header)], Return)
    case _ =>
      Run([Print(header)], Halt)
  }

  /** The general-protection handler is the only one that returns; every other handler halts. */
  lemma OnlyGeneralProtectionReturns(h: Handler, regs: Regs, errorCode: Word, cr2: Word)
    ensures Handle(h, regs, errorCode, cr2).disposition == Return <==> h == GeneralProtection
  {
  }

  /**
   * Every handler prints its header first (after the CR2 read for the page
   * fault), naming its label, its vector, the error code, RSP and RIP.
   */
  lemma HeaderFirst(h: Handler, regs: Regs, errorCode: Word, cr2: Word)
    ensures var events := Handle(h, regs, errorCode, cr2).events;
      var k := if h == PageFault then 1 else 0;
      k < |events| && events[k].Print? && events[k].line.Header?
      && events[k].line.severity == SeverityOf(h)
      && events[k].line.vector == VectorOf(h)
      && events[k].line.errorCode == errorCode
      && events[k].line.rsp == regs.rsp && events[k].line.rip == regs.rip
  {
  }

  /** The page-fault handler reads CR2 before anything is printed, exactly once, and prints that value; no other handler reads it. */
  lemma PageFaultReadsCr2First(h: Handler, regs: Regs, errorCode: Word, cr2: Word)
    ensures var events := Handle(h, regs, errorCode, cr2).events;
      (h == PageFault ==>
        events[0] == ReadCr2
        && (forall k :: 1 <= k < |events| ==> events[k].Print?)
        && events[1].line.cr2 == Some(cr2))
      && (h != PageFault ==> ReadCr2 !in events)
  {
    var events := Handle(h, regs, errorCode, cr2).events;
    if h == PageFault {
      var lines := FaultLines(DecodePageFault(errorCode));
      assert events == [ReadCr2, events[1], events[2]] + lines;
      assert forall k :: 3 <= k < |events| ==> events[k] == lines[k - 3];
    } else if h == InvalidTss {
      var lines := TssLines(DecodeInvalidTss(errorCode));
      assert events == [events[0], events[1]] + lines + [Print(BlankLine)];
      assert forall k :: 2 <= k < |events| - 1 ==> events[k] == lines[k - 2];
    }
  }

  /** The decoding handlers print the decoder's lines, in order, after the header and the information banner. */
  lemma DecodersPrinted(regs: Regs, errorCode: Word, cr2: Word)
    ensures var events := Handle(InvalidTss, regs, errorCode, cr2).events;
      var facts := DecodeInvalidTss(errorCode);
      |events| == |facts| + 3 && events[1] == Print(Information)
      && (forall k :: 0 <= k < |facts| ==> events[k + 2] == Print(Tss(facts[k])))
    ensures var events := Handle(PageFault, regs, errorCode, cr2).events;
      var facts := DecodePageFault(errorCode);
      |events| == |facts| + 3 && events[2] == Print(Information)
      && (forall k :: 0 <= k < |facts| ==> events[k + 3] == Print(Fault(facts[k])))
  {
  }
}
