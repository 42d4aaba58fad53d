/** Interrupt lines and the pair of 8259A controllers, on values. */
module IrqModel {
  const NR_IRQS := 16

  type IrqNo = x: int | 0 <= x < NR_IRQS

  /**
   * The cached mask (true is masked), the last bytes written to the two mask ports, and the
   * in-service bits: 0 to 7 of the master, 8 to 15 of the slave, which reports through
   * master input 2.
   */
  datatype Pic = Pic(mask: seq<bool>, port21: seq<bool>, portA1: seq<bool>, isr: seq<bool>,
                     spurious: seq<bool>, errors: nat)

  /** A handler of a line; SA_INTERRUPT on the first of a chain keeps interrupts off. */
  datatype Action = Action(saInterrupt: bool)

  /** The status flags of a line and its chain of handlers, empty for a null pointer. */
  datatype Line = Line(inProgress: bool, disabled: bool, pending: bool, replay: bool, actions: seq<Action>)

  datatype Device = Device(lines: seq<Line>, pic: Pic)

  predicate DeviceOk(d: Device) {
    |d.lines| == NR_IRQS && PicOk(d.pic)
  }

  predicate PicOk(p: Pic) {
    |p.mask| == |p.isr| == |p.spurious| == NR_IRQS
  }

  /** The mask ports hold the two bytes of the cached mask. */
  predicate Coherent(p: Pic)
    requires PicOk(p)
  {
    p.port21 == p.mask[..8] && p.portA1 == p.mask[8..]
  }

  /** `outb` of one byte of the cached mask: to the slave's port for lines 8 to 15. */
  function WriteMask(p: Pic, irq: IrqNo): Pic
    requires PicOk(p)
  {
    if irq >= 8 then p.(portA1 := p.mask[8..]) else p.(port21 := p.mask[..8])
  }

  function Enable(p: Pic, irq: IrqNo): Pic
    requires PicOk(p)
  {
    WriteMask(p.(mask := p.mask[irq := false]), irq)
  }

  function Disable(p: Pic, irq: IrqNo): Pic
    requires PicOk(p)
  {
    WriteMask(p.(mask := p.mask[irq := true]), irq)
  }

  /** The specific end-of-interrupt commands that follow the mask write; both go to the line's own chip. */
  function EndOfInterrupt(p: Pic, irq: IrqNo): Pic
    requires PicOk(p)
  {
    if irq >= 8 then p.(isr := p.isr[irq := false][8 + 2 := false]) else p.(isr := p.isr[irq := false])
  }

  /** `mask_and_ack_8259A_irq`. */
  function MaskAndAck(p: Pic, irq: IrqNo): Pic
    requires PicOk(p)
  {
    if !p.mask[irq] || p.isr[irq] then EndOfInterrupt(Disable(p, irq), irq)
    else p.(spurious := p.spurious[irq := true], errors := p.errors + 1)
  }

  /** `end_8259A_irq`. */
  function EndIrq(p: Pic, line: Line, irq: IrqNo): Pic
    requires PicOk(p)
  {
    if line.disabled || line.inProgress then p else Enable(p, irq)
  }

  /** The processor is told of line `irq`: its chip, and the master for a slave's line, are in service. */
  function Raise(p: Pic, irq: IrqNo): Pic
    requires PicOk(p)
  {
    if irq >= 8 then p.(isr := p.isr[irq := true][2 := true]) else p.(isr := p.isr[irq := true])
  }

  /** `__do_IRQ` up to its first handler: the new state, and whether the handlers are to run. */
  function Entry(d: Device, irq: IrqNo): (Device, bool)
    requires DeviceOk(d)
  {
    var line := d.lines[irq].(replay := false, pending := true);
    var pic := MaskAndAck(d.pic, irq);
    if line.disabled || line.inProgress then
      (Device(d.lines[irq := line], EndIrq(pic, line, irq)), false)
    else
      var taken := line.(pending := false, inProgress := true);
      var lines := d.lines[irq := taken];
      if taken.actions == [] then (Device(lines, EndIrq(pic, taken, irq)), false)
      else (Device(lines, pic), true)
  }

  /** `__do_IRQ` after its handlers have run: the new state, and whether they are to run again. */
  function AfterChain(d: Device, irq: IrqNo): (Device, bool)
    requires DeviceOk(d)
  {
    var line := d.lines[irq];
    if line.pending then (d.(lines := d.lines[irq := line.(pending := false)]), true)
    else
      var done := line.(inProgress := false);
      (Device(d.lines[irq := done], EndIrq(d.pic, done, irq)), false)
  }

  /** After `init_ISA_irqs`: all lines disabled without handlers, everything masked. */
  function Initial(): Device {
    var ones := seq(NR_IRQS, _ => true);
    var zeros := seq(NR_IRQS, _ => false);
    Device(seq(NR_IRQS, _ => Line(false, true, false, false, [])),
           Pic(ones, seq(8, _ => true), seq(8, _ => true), zeros, zeros, 0))
  }

  // ---------- the controllers ----------

  /** Every operation writes one port, and still both ports keep showing the cached mask. */
  lemma CoherentKept(p: Pic, line: Line, irq: IrqNo)
    requires PicOk(p) && Coherent(p)
    ensures PicOk(Enable(p, irq)) && Coherent(Enable(p, irq))
    ensures PicOk(Disable(p, irq)) && Coherent(Disable(p, irq))
    ensures PicOk(MaskAndAck(p, irq)) && Coherent(MaskAndAck(p, irq))
    ensures PicOk(EndIrq(p, line, irq)) && Coherent(EndIrq(p, line, irq))
    ensures PicOk(Raise(p, irq)) && Coherent(Raise(p, irq))
  {
  }

  /**
   * Acknowledging a line leaves nothing in service exactly for the master's lines: for a
   * slave's line the second command goes to the slave as well, and the master's input 2
   * stays in service.
   */
  lemma AckCompleteIff(p: Pic, irq: IrqNo)
    requires PicOk(p) && forall i :: 0 <= i < NR_IRQS ==> !p.isr[i]
    ensures (forall i :: 0 <= i < NR_IRQS ==> !MaskAndAck(Raise(p, irq), irq).isr[i]) <==> irq < 8
  {
    if irq >= 8 {
      assert MaskAndAck(Raise(p, irq), irq).isr[2];
    }
  }

  /**
   * However an entry ends, its line is masked and out of service behind it and no longer to be
   * replayed, and no other line's mask or status changes.
   */
  lemma EntryMasks(d: Device, irq: IrqNo)
    requires DeviceOk(d)
    ensures var e := Entry(d, irq).0;
            && DeviceOk(e) && e.pic.mask[irq] && !e.pic.isr[irq] && !e.lines[irq].replay
            && forall j :: 0 <= j < NR_IRQS && j != irq ==>
                 e.pic.mask[j] == d.pic.mask[j] && e.lines[j] == d.lines[j]
  {
  }

  /** Masking and unmasking touch one line's bit and nothing else but the ports. */
  lemma MaskExact(p: Pic, irq: IrqNo)
    requires PicOk(p)
    ensures forall j :: 0 <= j < NR_IRQS ==>
              && Enable(p, irq).mask[j] == (p.mask[j] && j != irq)
              && Disable(p, irq).mask[j] == (p.mask[j] || j == irq)
    ensures forall q :: q == Enable(p, irq) || q == Disable(p, irq) ==>
              q.isr == p.isr && q.spurious == p.spurious && q.errors == p.errors
  {
  }

  /**
   * Acknowledging a line that is unmasked or in service masks it and takes it out of service,
   * and the slave's level 2 as well if it is a slave's line.  On a masked line that is not in
   * service it only counts one error and remembers the line.  No other line is touched.
   */
  lemma AckExact(p: Pic, irq: IrqNo)
    requires PicOk(p)
    ensures var q, served := MaskAndAck(p, irq), !p.mask[irq] || p.isr[irq];
            && (forall j :: 0 <= j < NR_IRQS ==>
                  && q.mask[j] == (p.mask[j] || j == irq)
                  && q.isr[j] == (p.isr[j] && !(served && (j == irq || (irq >= 8 && j == 10))))
                  && q.spurious[j] == (p.spurious[j] || (!served && j == irq)))
            && q.errors == p.errors + (if served then 0 else 1)
  {
  }

  /**
   * An entry acknowledges the line, notes an arrival that it cannot serve and marks a line that
   * it can serve as in progress.  It never touches a line's `disabled` flag or its handlers.
   */
  lemma EntryExact(d: Device, irq: IrqNo)
    requires DeviceOk(d)
    ensures var (e, run) := Entry(d, irq);
            var line, after := d.lines[irq], e.lines[irq];
            && (run <==> !line.disabled && !line.inProgress && line.actions != [])
            && after.inProgress == (line.inProgress || !line.disabled)
            && after.pending == (line.inProgress || line.disabled)
            && !after.replay && e.pic == MaskAndAck(d.pic, irq)
            && forall j :: 0 <= j < NR_IRQS ==>
                 && e.lines[j].disabled == d.lines[j].disabled && e.lines[j].actions == d.lines[j].actions
                 && (j != irq ==> e.lines[j] == d.lines[j])
  {
  }

  /**
   * Behind the handlers an arrival noted meanwhile is taken and the handlers run again; else the
   * line is no longer in progress, and is unmasked unless it is disabled.  Nothing else changes.
   */
  lemma AfterChainExact(d: Device, irq: IrqNo)
    requires DeviceOk(d)
    ensures var (e, again) := AfterChain(d, irq);
            var line, after := d.lines[irq], e.lines[irq];
            && (again <==> line.pending)
            && !after.pending && after.inProgress == (line.inProgress && again) && after.replay == line.replay
            && e.pic == (if again || line.disabled then d.pic else Enable(d.pic, irq))
            && forall j :: 0 <= j < NR_IRQS ==>
                 && e.lines[j].disabled == d.lines[j].disabled && e.lines[j].actions == d.lines[j].actions
                 && (j != irq ==> e.lines[j] == d.lines[j])
  {
  }

  /** After initialisation every line is disabled, idle, without handlers and masked, and nothing is in service. */
  lemma InitialExact()
    ensures DeviceOk(Initial()) && Coherent(Initial().pic) && Initial().pic.errors == 0
    ensures forall j :: 0 <= j < NR_IRQS ==>
              var d := Initial();
              && d.lines[j].disabled && !d.lines[j].inProgress && !d.lines[j].pending && d.lines[j].actions == []
              && d.pic.mask[j] && !d.pic.isr[j] && !d.pic.spurious[j]
  {
  }
}
