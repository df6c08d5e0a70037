/** The interrupt controller's status register (src/interrupt.rs). */
module Interrupts {
  datatype Interrupt = VBlank | CdRom | Dma | Timer0 | Timer1 | Timer2 | PadMemCard

  class InterruptState {
    var status: set<Interrupt>

    method Assert(which: Interrupt)
      modifies this
      ensures status == old(status) + {which}
    {
      status := status + {which};
    }
  }
}
