/** The drive CPU's interrupt status and the 6502 dispatch-timing rules that
    decide whether a latched NMI or IRQ is taken at the current cycle.

    The status record itself belongs to interrupt.c, which is not part of
    this model: it is reduced to the pending mask and the two clocks at which
    the NMI and IRQ lines became active. */
module Interrupts {

  /** Bits of global_pending_int (their values as in interrupt.h; the proofs
      only use that they are distinct single bits). */
  const IK_RESET: bv32 := 1 << 2
  const IK_MONITOR: bv32 := 1 << 4
  const IK_IRQPEND: bv32 := 1 << 6

  datatype IntStatus = IntStatus(pending: bv32, nmiClk: nat, irqClk: nat)

  /** interrupt_cpu_status_reset: nothing pending, both line clocks cleared. */
  const ClearedStatus := IntStatus(0, 0, 0)

  /** interrupt_monitor_trap_on: request a break into the monitor. */
  function MonitorTrapOn(st: IntStatus): (r: IntStatus)
    ensures r.pending & IK_MONITOR == IK_MONITOR
    ensures r.pending & !IK_MONITOR == st.pending & !IK_MONITOR
    ensures r.nmiClk == st.nmiClk && r.irqClk == st.irqClk
  {
    st.(pending := st.pending | IK_MONITOR)
  }

  /** interrupt_trigger_reset: latch a CPU reset. */
  function TriggerReset(st: IntStatus): (r: IntStatus)
    ensures r.pending & IK_RESET == IK_RESET
    ensures r.pending & !IK_RESET == st.pending & !IK_RESET
    ensures r.nmiClk == st.nmiClk && r.irqClk == st.irqClk
  {
    st.(pending := st.pending | IK_RESET)
  }

  /** The interrupt part of cpu_reset and drivecpu_reset: the status is
      cleared, except that a pending monitor break survives. */
  function ResetKeepingMonitor(st: IntStatus): (r: IntStatus)
    ensures r.pending & IK_MONITOR == st.pending & IK_MONITOR
    ensures r.pending & !IK_MONITOR == 0
    ensures r.nmiClk == 0 && r.irqClk == 0
  {
    var preserveMonitor := st.pending & IK_MONITOR;
    var cleared := ClearedStatus;
    if preserveMonitor != 0 then MonitorTrapOn(cleared) else cleared
  }

  /** The status after drivecpu_reset: cleared, the monitor break kept, and a
      reset latched. */
  function ResetStatus(st: IntStatus): (r: IntStatus)
    ensures r.pending & IK_MONITOR == st.pending & IK_MONITOR
    ensures r.pending & IK_RESET == IK_RESET
    ensures r.pending & !(IK_MONITOR | IK_RESET) == 0
    ensures r.nmiClk == 0 && r.irqClk == 0
  {
    TriggerReset(ResetKeepingMonitor(st))
  }

  /** The three facts the delay rules take from last_opcode_info, through the
      OPINFO_NUMBER, OPINFO_DELAYS_INTERRUPT and OPINFO_ENABLES_IRQ extractors
      of the interpreter (their bit layout is not part of this model). */
  datatype OpInfo = OpInfo(number: nat, delaysInterrupt: bool, enablesIrq: bool)

  /** Opcode number of BRK. */
  const OPCODE_BRK: nat := 0x00

  /** One extra cycle of latency after a taken branch that stays on its page. */
  function BranchDelay(info: OpInfo): nat
  {
    if info.delaysInterrupt then 1 else 0
  }

  /** interrupt_check_nmi_delay: should a pending NMI be dispatched at
      `cpuClk`? `delay` is INTERRUPT_DELAY. */
  function NmiDispatchNow(st: IntStatus, info: OpInfo, cpuClk: nat, delay: nat): (r: bool)
    ensures r <==> info.number != OPCODE_BRK && cpuClk >= st.nmiClk + delay + BranchDelay(info)
  {
    var nmiClk := st.nmiClk + delay;
    if info.number == OPCODE_BRK then false
    else
      var nmiClk' := if info.delaysInterrupt then nmiClk + 1 else nmiClk;
      cpuClk >= nmiClk'
  }

  /** BRK suppresses the NMI however late it is. */
  lemma NmiAfterBrk(st: IntStatus, info: OpInfo, cpuClk: nat, delay: nat)
    requires info.number == OPCODE_BRK
    ensures !NmiDispatchNow(st, info, cpuClk, delay)
  {
  }

  /** Once due, an NMI stays due at every later cycle. */
  lemma NmiMonotone(st: IntStatus, info: OpInfo, c1: nat, c2: nat, delay: nat)
    requires c1 <= c2 && NmiDispatchNow(st, info, c1, delay)
    ensures NmiDispatchNow(st, info, c2, delay)
  {
  }

  /** A delaying branch shifts the NMI by exactly one cycle. */
  lemma NmiBranchShift(st: IntStatus, info: OpInfo, cpuClk: nat, delay: nat)
    requires info.delaysInterrupt
    ensures NmiDispatchNow(st, info, cpuClk + 1, delay)
        == NmiDispatchNow(st, info.(delaysInterrupt := false), cpuClk, delay)
    ensures !NmiDispatchNow(st, info, st.nmiClk + delay, delay)
  {
  }

  /** What interrupt_check_irq_delay returns, and the status it leaves. */
  datatype IrqCheck = IrqCheck(dispatch: bool, status: IntStatus)

  /** interrupt_check_irq_delay: should a pending IRQ be dispatched at
      `cpuClk`? When the IRQ is due but the last opcode just cleared the I
      flag, it is held back one more opcode by the IK_IRQPEND bit. */
  function IrqDelayCheck(st: IntStatus, info: OpInfo, cpuClk: nat, delay: nat): (r: IrqCheck)
    ensures r.dispatch <==> cpuClk >= st.irqClk + delay + BranchDelay(info) && !info.enablesIrq
    ensures r.status == (if cpuClk >= st.irqClk + delay + BranchDelay(info) && info.enablesIrq
                         then st.(pending := st.pending | IK_IRQPEND) else st)
  {
    var irqClk := st.irqClk + delay;
    var irqClk' := if info.delaysInterrupt then irqClk + 1 else irqClk;
    if cpuClk >= irqClk' then
      if !info.enablesIrq then IrqCheck(true, st)
      else IrqCheck(false, st.(pending := st.pending | IK_IRQPEND))
    else IrqCheck(false, st)
  }

  /** The check either dispatches or defers, never both, and it changes no
      other bit and neither clock. */
  lemma IrqDispatchOrDefer(st: IntStatus, info: OpInfo, cpuClk: nat, delay: nat)
    ensures var r := IrqDelayCheck(st, info, cpuClk, delay);
            r.status.nmiClk == st.nmiClk && r.status.irqClk == st.irqClk &&
            r.status.pending & !IK_IRQPEND == st.pending & !IK_IRQPEND &&
            (r.dispatch ==> r.status == st)
  {
    var r := IrqDelayCheck(st, info, cpuClk, delay);
    if r.status != st {
      assert r.status.pending == st.pending | IK_IRQPEND;
      SetBitKeepsOthers(st.pending, IK_IRQPEND);
    }
  }

  /** Latching a reset that is already latched changes nothing. */
  lemma TriggerResetIdempotent(st: IntStatus)
    ensures TriggerReset(TriggerReset(st)) == TriggerReset(st)
  {
  }

  lemma SetBitKeepsOthers(p: bv32, b: bv32)
    ensures (p | b) & !b == p & !b
  {
  }

  /** Repeating the check on the status it left gives the same answer and
      leaves that status alone. */
  lemma IrqCheckIdempotent(st: IntStatus, info: OpInfo, cpuClk: nat, delay: nat)
    ensures var r := IrqDelayCheck(st, info, cpuClk, delay);
            IrqDelayCheck(r.status, info, cpuClk, delay) == r
  {
  }
}
