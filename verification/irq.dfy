/** The interrupt code as it runs: lines and controllers changed in place. */
module Irq {
  import opened IrqModel

  class Controller {
    const lines: array<Line>
    const cachedMask: array<bool>
    var port21: seq<bool>
    var portA1: seq<bool>
    var isr: seq<bool>
    var spurious: seq<bool>
    var errCount: nat

    ghost predicate Valid()
      reads this, lines, cachedMask
    {
      DeviceOk(View())
    }

    ghost function View(): Device
      reads this, lines, cachedMask
    {
      Device(lines[..], Pic(cachedMask[..], port21, portA1, isr, spurious, errCount))
    }

    /** `init_ISA_irqs`, with `init_8259A`: the last bytes to reach the mask ports are the cached mask. */
    constructor ()
      ensures Valid() && fresh(lines) && fresh(cachedMask) && View() == Initial() && Coherent(View().pic)
    {
      cachedMask := new bool[NR_IRQS](_ => true);
      lines := new Line[NR_IRQS](_ => Line(false, true, false, false, []));
      isr, spurious := seq(NR_IRQS, _ => false), seq(NR_IRQS, _ => false);
      errCount := 0;
      port21, portA1 := seq(8, _ => true), seq(8, _ => true);
      new;
      port21 := cachedMask[..8];
      portA1 := cachedMask[8..];
      assert lines[..] == Initial().lines && cachedMask[..] == Initial().pic.mask;
      assert port21 == Initial().pic.port21 && portA1 == Initial().pic.portA1;
      assert Coherent(View().pic);
    }

    method EnableIrq(irq: IrqNo)
      requires Valid()
      modifies this`port21, this`portA1, cachedMask
      ensures Valid() && View() == old(View()).(pic := Enable(old(View()).pic, irq))
    {
      cachedMask[irq] := false;
      if irq >= 8 {
        portA1 := cachedMask[8..];
      } else {
        port21 := cachedMask[..8];
      }
    }

    method DisableIrq(irq: IrqNo)
      requires Valid()
      modifies this`port21, this`portA1, cachedMask
      ensures Valid() && View() == old(View()).(pic := Disable(old(View()).pic, irq))
    {
      cachedMask[irq] := true;
      if irq >= 8 {
        portA1 := cachedMask[8..];
      } else {
        port21 := cachedMask[..8];
      }
    }

    method MaskAndAckIrq(irq: IrqNo)
      requires Valid()
      modifies this`port21, this`portA1, this`isr, this`spurious, this`errCount, cachedMask
      ensures Valid() && View() == old(View()).(pic := MaskAndAck(old(View()).pic, irq))
    {
      if cachedMask[irq] && !isr[irq] {
        spurious := spurious[irq := true];
        errCount := errCount + 1;
        return;
      }
      cachedMask[irq] := true;
      if irq >= 8 {
        portA1 := cachedMask[8..];
        isr := isr[irq := false];
        isr := isr[8 + 2 := false];
      } else {
        port21 := cachedMask[..8];
        isr := isr[irq := false];
      }
    }

    method EndOfIrq(irq: IrqNo)
      requires Valid()
      modifies this`port21, this`portA1, cachedMask
      ensures Valid() && View() == old(View()).(pic := EndIrq(old(View()).pic, old(lines[irq]), irq))
    {
      if !(lines[irq].disabled || lines[irq].inProgress) {
        EnableIrq(irq);
      }
    }

    /** `__do_IRQ` up to the handlers; interrupts are off throughout. */
    method DoIrqEntry(irq: IrqNo) returns (run: bool)
      requires Valid()
      modifies this, lines, cachedMask
      ensures Valid() && (View(), run) == Entry(old(View()), irq)
    {
      MaskAndAckIrq(irq);
      var status := lines[irq].(replay := false);
      status := status.(pending := true);
      run := false;
      if !(status.disabled || status.inProgress) {
        run := status.actions != [];
        status := status.(pending := false);
        status := status.(inProgress := true);
      }
      lines[irq] := status;
      if !run {
        EndOfIrq(irq);
      }
    }

    /** `__do_IRQ` behind the handlers, again with interrupts off. */
    method DoIrqAfterChain(irq: IrqNo) returns (again: bool)
      requires Valid()
      modifies this, lines, cachedMask
      ensures Valid() && (View(), again) == AfterChain(old(View()), irq)
    {
      if lines[irq].pending {
        lines[irq] := lines[irq].(pending := false);
        return true;
      }
      lines[irq] := lines[irq].(inProgress := false);
      EndOfIrq(irq);
      again := false;
    }
  }
}
