/**
 The machine description that every boot path fills in.
 */
module BootInfos {
  import opened Machine

  datatype ConsoleKind = Pl011 | Ns16550 | BcmMiniUart
  datatype IntcKind = GicV2 | GicV3 | Apic | Pic8259
  datatype PixelFormat = Bgra8888 | Rgba8888

  datatype RegSpec = RegSpec(base: u64, size: u64)
  datatype MemoryRegion = MemoryRegion(base: u64, size: u64)
  datatype FramebufferInfo =
    FramebufferInfo(base: u64, width: u32, height: u32, strideBytes: u32, bpp: u32, format: PixelFormat)
  datatype ConsoleSpec = ConsoleSpec(kind: ConsoleKind, regs: RegSpec, clockHz: u32)
  datatype IntcSpec = IntcSpec(kind: IntcKind, primary: RegSpec, secondary: RegSpec)

  const MAX_MEMORY_REGIONS := 8

  /** The used prefix of the fixed-size region array. */
  type MemoryMap = seq<MemoryRegion>

  datatype BootInfo = BootInfo(
    console: ConsoleSpec,
    memory: MemoryMap,
    intc: IntcSpec,
    timerFreqHz: u32,
    framebuffer: Option<FramebufferInfo>,
    fwTableAddr: u64)

  /** `MemoryMap::push`: past the cap, and for empty regions, nothing happens. */
  function Push(m: MemoryMap, r: MemoryRegion): MemoryMap {
    if |m| < MAX_MEMORY_REGIONS && r.size > 0 then m + [r] else m
  }

  /** The banks that have a size, in order. */
  function NonEmpty(rs: seq<MemoryRegion>): (r: seq<MemoryRegion>)
    ensures |r| <= |rs|
  {
    if rs == [] then []
    else NonEmpty(rs[..|rs| - 1]) + if rs[|rs| - 1].size > 0 then [rs[|rs| - 1]] else []
  }

  function FirstEight(m: seq<MemoryRegion>): seq<MemoryRegion> {
    if |m| <= 8 then m else m[..8]
  }

  const FALLBACK_BANK := MemoryRegion(0x4000_0000, 256 * 1024 * 1024)

  function QemuVirtFallback(): BootInfo {
    BootInfo(
      ConsoleSpec(Pl011, RegSpec(0x0900_0000, 0x1000), 24_000_000),
      [FALLBACK_BANK],
      IntcSpec(GicV2, RegSpec(0x0800_0000, 0x10000), RegSpec(0x0801_0000, 0x10000)),
      0, None, 0)
  }
}
