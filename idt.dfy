/**
 * The table walks of idt.c that only read kernel memory: show_idt_info,
 * create_idt_archive and read_idt_archive. Each walk reads descriptor
 * slot x from `idt_addr + 16*x` into one reused buffer and appends what it
 * prints to its output, here a sequence of rows or entries.
 *
 * The archive file is the sequence of 16-byte buffers it holds; whether
 * it opens is a parameter of the walk.
 */
module Idt {
  import opened Global
  import opened Descriptors
  import KM = KernelMemory
  import Symbols

  /** `cfg->idt_addr + offset` in 64-bit unsigned arithmetic. */
  function SlotAddress(idtAddr: uint64, offset: int): uint64
  {
    (idtAddr + offset) % TWO_64
  }

  /** The 16 bytes at kernel address addr. */
  function ImageAt(m: KM.View, addr: int): Image
    requires KM.Serves(m, addr, DESCRIPTOR_SIZE)
  {
    KM.ReadAt(m, addr, DESCRIPTOR_SIZE)
  }

  /** The record at kernel address addr. */
  function DescriptorAt(m: KM.View, addr: int): Descriptor
    requires KM.Serves(m, addr, DESCRIPTOR_SIZE)
  {
    DecodeDescriptor(ImageAt(m, addr))
  }

  /**
   * readkmem into the reused buffer: the bytes read, the buffer as it was
   * after a KERN_FAILURE of the task-port path, None when the process exits.
   */
  function ReadInto(m: KM.View, port: nat, addr: int, buffer: Image): Option<Image>
  {
    if KM.Serves(m, addr, DESCRIPTOR_SIZE) then Some(ImageAt(m, addr))
    else if port != 0 then Some(buffer)
    else None
  }

  /** readkmem of one record into the buffer that holds `buffer`; None when the process exits. */
  method ReadDescriptor(mem: KM.Device, port: nat, addr: uint64, buffer: Image) returns (r: Option<Image>)
    ensures r == ReadInto(mem.Snapshot(), port, addr, buffer)
  {
    var status, bytes := mem.ReadKmem(port, addr, DESCRIPTOR_SIZE);
    if status == KM.Aborted {
      return None;
    }
    if status == KM.KernSuccess {
      var image: Image := bytes;
      return Some(image);
    }
    return Some(buffer);
  }

  /** What a walk printed before it ended, and whether it ended by exiting the process. */
  datatype Report<T> = Report(lines: seq<T>, exited: bool)

  /** The buffer after the reads so far: the initial contents before the first read. */
  function LastBuffer(initial: Image, read: seq<Image>): Image
  {
    if |read| == 0 then initial else read[|read| - 1]
  }

  /** The buffer after each read of slots 0, 1, ... up to n, cut short where the process exits. */
  function ReadSlots(m: KM.View, port: nat, idtAddr: uint64, n: nat, initial: Image): (r: Report<Image>)
    ensures |r.lines| <= n && (!r.exited ==> |r.lines| == n)
  {
    if n == 0 then Report([], false)
    else
      var r := ReadSlots(m, port, idtAddr, n - 1, initial);
      if r.exited then r
      else
        match ReadInto(m, port, SlotAddress(idtAddr, 16 * (n - 1)), LastBuffer(initial, r.lines))
        case None => Report(r.lines, true)
        case Some(b) => Report(r.lines + [b], false)
  }

  /** One more slot: the walk reads slot x into the buffer the previous read left. */
  lemma ReadSlotsStep(m: KM.View, port: nat, idtAddr: uint64, x: nat, initial: Image, read: seq<Image>)
    requires ReadSlots(m, port, idtAddr, x, initial) == Report(read, false)
    ensures ReadSlots(m, port, idtAddr, x + 1, initial) ==
      match ReadInto(m, port, SlotAddress(idtAddr, 16 * x), LastBuffer(initial, read))
      case None => Report(read, true)
      case Some(b) => Report(read + [b], false)
  {
  }

  /** Once a read has ended the process, later counts see the same cut-short walk. */
  lemma {:induction false} ReadSlotsExited(m: KM.View, port: nat, idtAddr: uint64, k: nat, n: nat, initial: Image)
    requires k <= n && ReadSlots(m, port, idtAddr, k, initial).exited
    ensures ReadSlots(m, port, idtAddr, n, initial) == ReadSlots(m, port, idtAddr, k, initial)
    decreases n - k
  {
    if k < n {
      ReadSlotsExited(m, port, idtAddr, k + 1, n, initial);
    }
  }

  /** Read slot x of a walk that has read `read` so far into the buffer the previous read left. */
  method ReadSlot(mem: KM.Device, port: nat, idtAddr: uint64, x: nat, initial: Image, ghost read: seq<Image>, buffer: Image)
    returns (next: Option<Image>)
    requires ReadSlots(mem.Snapshot(), port, idtAddr, x, initial) == Report(read, false)
    requires buffer == LastBuffer(initial, read)
    ensures ReadSlots(mem.Snapshot(), port, idtAddr, x + 1, initial) ==
      match next case None => Report(read, true) case Some(b) => Report(read + [b], false)
  {
    next := ReadDescriptor(mem, port, SlotAddress(idtAddr, 16 * x), buffer);
    ReadSlotsStep(mem.Snapshot(), port, idtAddr, x, initial, read);
  }

  /** The n slots from idtAddr lie below 2^64 and inside the device. */
  predicate TableServed(m: KM.View, idtAddr: uint64, n: nat)
  {
    idtAddr + 16 * n <= TWO_64 && KM.Serves(m, idtAddr, 16 * n)
  }

  /** Under TableServed slot x needs no reduction modulo 2^64 and is readable. */
  lemma SlotServed(m: KM.View, idtAddr: uint64, n: nat, x: nat)
    requires TableServed(m, idtAddr, n) && x < n
    ensures SlotAddress(idtAddr, 16 * x) == idtAddr + 16 * x
    ensures KM.Serves(m, idtAddr + 16 * x, DESCRIPTOR_SIZE)
  {
  }

  /** Over a readable table, read n appends the bytes of slot n - 1. */
  lemma ReadSlotsServedStep(m: KM.View, port: nat, idtAddr: uint64, n: nat, initial: Image)
    requires TableServed(m, idtAddr, n) && n > 0
    requires !ReadSlots(m, port, idtAddr, n - 1, initial).exited
    ensures ReadSlots(m, port, idtAddr, n, initial) ==
      Report(ReadSlots(m, port, idtAddr, n - 1, initial).lines + [ImageAt(m, idtAddr + 16 * (n - 1))], false)
  {
    SlotServed(m, idtAddr, n, n - 1);
    ReadSlotsStep(m, port, idtAddr, n - 1, initial, ReadSlots(m, port, idtAddr, n - 1, initial).lines);
  }

  /** When the table is readable the walk reads every slot without exiting. */
  lemma {:induction false} ReadSlotsServed(m: KM.View, port: nat, idtAddr: uint64, n: nat, initial: Image)
    requires TableServed(m, idtAddr, n)
    ensures !ReadSlots(m, port, idtAddr, n, initial).exited
  {
    if n > 0 {
      ReadSlotsServed(m, port, idtAddr, n - 1, initial);
      ReadSlotsServedStep(m, port, idtAddr, n, initial);
    }
  }

  /** ... and the buffer it holds for slot x is the 16 bytes at `idt_addr + 16*x`. */
  lemma {:induction false} ReadSlotsRecord(m: KM.View, port: nat, idtAddr: uint64, n: nat, initial: Image, x: nat)
    requires TableServed(m, idtAddr, n) && x < n
    ensures |ReadSlots(m, port, idtAddr, n, initial).lines| == n
    ensures ReadSlots(m, port, idtAddr, n, initial).lines[x] == ImageAt(m, idtAddr + 16 * x)
  {
    ReadSlotsServed(m, port, idtAddr, n - 1, initial);
    ReadSlotsServedStep(m, port, idtAddr, n, initial);
    var before := ReadSlots(m, port, idtAddr, n - 1, initial).lines;
    var after := ReadSlots(m, port, idtAddr, n, initial).lines;
    if x < n - 1 {
      ReadSlotsRecord(m, port, idtAddr, n - 1, initial, x);
      assert after[x] == before[x];
    } else {
      assert after[x] == ImageAt(m, idtAddr + 16 * (n - 1));
    }
  }

  /* ---------------------------------------------------------------- */
  /* show_idt_info                                                    */
  /* ---------------------------------------------------------------- */

  /** One printed line of show_idt_info; handler is the resolved name, with -s only. */
  datatype Row = Row(interrupt: int, stubAddress: uint64, segment: string, dpl: int, gateType: string, handler: Option<string>)

  /** The row printed for the record d at index interrupt (idt.c, the body of both branches). */
  function MakeRow(cfg: Config, interrupt: int, d: Descriptor): Row
  {
    var stub := ShowStubAddress(d, cfg.kernelType);
    Row(interrupt, stub, SegmentName(d.segSelector), Dpl(d.flag), GateTypeOf(d.flag).Name(),
        if cfg.resolve then Some(Symbols.ResolvedName(cfg.symbols, stub, cfg.kaslrSlide)) else None)
  }

  /** Whether the -A loop prints a row for the buffer b: its stub address is not 0. */
  predicate Listed(cfg: Config, b: Image)
  {
    ShowStubAddress(DecodeDescriptor(b), cfg.kernelType) != 0
  }

  /** The stub address show_idt_info computes for each buffer read. */
  function StubsOf(cfg: Config, records: seq<Image>): seq<uint64>
  {
    seq(|records|, i requires 0 <= i < |records| => ShowStubAddress(DecodeDescriptor(records[i]), cfg.kernelType))
  }

  /** The indices below n whose stub address is not 0, in the order the -A loop meets them. */
  function NonZeroIndices(stubs: seq<uint64>, n: nat): (xs: seq<nat>)
    requires n <= |stubs|
    ensures forall k :: 0 <= k < |xs| ==> xs[k] < n
  {
    if n == 0 then []
    else NonZeroIndices(stubs, n - 1) + if stubs[n - 1] != 0 then [n - 1] else []
  }

  /** The rows of the -A loop over the buffers read: the row of each listed index, in that order. */
  function AllRows(cfg: Config, records: seq<Image>): seq<Row>
  {
    var xs := NonZeroIndices(StubsOf(cfg, records), |records|);
    seq(|xs|, i requires 0 <= i < |xs| => MakeRow(cfg, xs[i], DecodeDescriptor(records[xs[i]])))
  }

  /** Stub addresses seen later do not change which earlier indices are listed. */
  lemma {:induction false} NonZeroIndicesPrefix(stubs: seq<uint64>, v: uint64, n: nat)
    requires n <= |stubs|
    ensures NonZeroIndices(stubs + [v], n) == NonZeroIndices(stubs, n)
  {
    if n > 0 {
      NonZeroIndicesPrefix(stubs, v, n - 1);
      assert (stubs + [v])[n - 1] == stubs[n - 1];
    }
  }

  /** One more buffer adds its row when its stub address is not 0. */
  lemma AllRowsSnoc(cfg: Config, records: seq<Image>, b: Image)
    ensures AllRows(cfg, records + [b]) ==
      AllRows(cfg, records) + if Listed(cfg, b) then [MakeRow(cfg, |records|, DecodeDescriptor(b))] else []
  {
    var more := records + [b];
    var stubs := StubsOf(cfg, records);
    var v := ShowStubAddress(DecodeDescriptor(b), cfg.kernelType);
    assert StubsOf(cfg, more) == stubs + [v];
    NonZeroIndicesPrefix(stubs, v, |records|);
    var xs := NonZeroIndices(stubs, |records|);
    assert NonZeroIndices(stubs + [v], |more|) == xs + if v != 0 then [|records|] else [];
    assert forall k :: 0 <= k < |xs| ==> more[xs[k]] == records[xs[k]];
  }

  /** The listed indices below n: those below n - 1, then n - 1 itself when its stub address is not 0. */
  lemma NonZeroIndicesStep(stubs: seq<uint64>, n: nat)
    requires 0 < n <= |stubs|
    ensures var prev, xs := NonZeroIndices(stubs, n - 1), NonZeroIndices(stubs, n);
      && xs[..|prev|] == prev
      && (stubs[n - 1] != 0 ==> |xs| == |prev| + 1 && xs[|prev|] == n - 1)
      && (stubs[n - 1] == 0 ==> xs == prev)
  {
  }

  /** Every listed index has a stub address other than 0. */
  lemma {:induction false} NonZeroSound(stubs: seq<uint64>, n: nat)
    requires n <= |stubs|
    ensures var xs := NonZeroIndices(stubs, n);
      forall k :: 0 <= k < |xs| ==> stubs[xs[k]] != 0
  {
    if n > 0 {
      NonZeroSound(stubs, n - 1);
      NonZeroIndicesStep(stubs, n);
      var prev, xs := NonZeroIndices(stubs, n - 1), NonZeroIndices(stubs, n);
      assert forall k :: 0 <= k < |prev| ==> xs[k] == prev[k];
    }
  }

  /** The listed indices ascend strictly. */
  lemma {:induction false} NonZeroAscending(stubs: seq<uint64>, n: nat)
    requires n <= |stubs|
    ensures var xs := NonZeroIndices(stubs, n);
      forall i, j :: 0 <= i < j < |xs| ==> xs[i] < xs[j]
  {
    if n > 0 {
      NonZeroAscending(stubs, n - 1);
      NonZeroIndicesStep(stubs, n);
      var prev, xs := NonZeroIndices(stubs, n - 1), NonZeroIndices(stubs, n);
      assert forall k :: 0 <= k < |prev| ==> xs[k] == prev[k] && xs[k] < n - 1;
    }
  }

  /** Every index below n whose stub address is not 0 is listed. */
  lemma {:induction false} NonZeroComplete(stubs: seq<uint64>, n: nat)
    requires n <= |stubs|
    ensures forall x :: 0 <= x < n && stubs[x] != 0 ==> x in NonZeroIndices(stubs, n)
  {
    if n > 0 {
      NonZeroComplete(stubs, n - 1);
      NonZeroIndicesStep(stubs, n);
      var prev, xs := NonZeroIndices(stubs, n - 1), NonZeroIndices(stubs, n);
      forall x | 0 <= x < n && stubs[x] != 0
        ensures x in xs
      {
        if x < n - 1 {
          assert x in prev;
          var k :| 0 <= k < |prev| && prev[k] == x;
          assert xs[k] == x;
        } else {
          assert xs[|prev|] == x;
        }
      }
    }
  }

  /** The k-th -A row is the row of the k-th listed index. */
  lemma AllRowsIndexed(cfg: Config, records: seq<Image>, k: nat)
    requires k < |AllRows(cfg, records)|
    ensures var xs := NonZeroIndices(StubsOf(cfg, records), |records|);
      k < |xs| && AllRows(cfg, records)[k] == MakeRow(cfg, xs[k], DecodeDescriptor(records[xs[k]]))
  {
  }

  /** Each -A row is made from its own record, whose stub address is not 0. */
  lemma AllRowsSound(cfg: Config, records: seq<Image>)
    ensures var rows := AllRows(cfg, records);
      forall i :: 0 <= i < |rows| ==>
        0 <= rows[i].interrupt < |records| && Listed(cfg, records[rows[i].interrupt]) &&
        rows[i] == MakeRow(cfg, rows[i].interrupt, DecodeDescriptor(records[rows[i].interrupt]))
  {
    NonZeroSound(StubsOf(cfg, records), |records|);
    var rows := AllRows(cfg, records);
    forall i | 0 <= i < |rows|
      ensures 0 <= rows[i].interrupt < |records| && Listed(cfg, records[rows[i].interrupt])
      ensures rows[i] == MakeRow(cfg, rows[i].interrupt, DecodeDescriptor(records[rows[i].interrupt]))
    {
      AllRowsIndexed(cfg, records, i);
    }
  }

  /** The -A rows come in strictly ascending index order. */
  lemma AllRowsAscending(cfg: Config, records: seq<Image>)
    ensures var rows := AllRows(cfg, records);
      forall i, j :: 0 <= i < j < |rows| ==> rows[i].interrupt < rows[j].interrupt
  {
    NonZeroAscending(StubsOf(cfg, records), |records|);
    var rows := AllRows(cfg, records);
    forall i, j | 0 <= i < j < |rows|
      ensures rows[i].interrupt < rows[j].interrupt
    {
      AllRowsIndexed(cfg, records, i);
      AllRowsIndexed(cfg, records, j);
    }
  }

  /** No record with a non-zero stub address is left without its row. */
  lemma AllRowsComplete(cfg: Config, records: seq<Image>)
    ensures var rows := AllRows(cfg, records);
      forall x :: 0 <= x < |records| && Listed(cfg, records[x]) ==>
        exists i :: 0 <= i < |rows| && rows[i].interrupt == x
  {
    NonZeroComplete(StubsOf(cfg, records), |records|);
    var xs := NonZeroIndices(StubsOf(cfg, records), |records|);
    var rows := AllRows(cfg, records);
    forall x | 0 <= x < |records| && Listed(cfg, records[x])
      ensures exists i :: 0 <= i < |rows| && rows[i].interrupt == x
    {
      assert StubsOf(cfg, records)[x] != 0;
      var i :| 0 <= i < |xs| && xs[i] == x;
      AllRowsIndexed(cfg, records, i);
    }
  }

  /** The single-interrupt read: done only when interrupt != 0, at `idt_addr + 16*interrupt` with int arithmetic. */
  function SingleRead(cfg: Config, m: KM.View): Option<Image>
  {
    if cfg.interrupt == 0 then Some(ZERO_IMAGE)
    else ReadInto(m, cfg.kernelPort, SlotAddress(cfg.idtAddr, WrapInt32(16 * cfg.interrupt)), ZERO_IMAGE)
  }

  /** Everything show_idt_info prints after its header. */
  function ShowReport(cfg: Config, m: KM.View): Report<Row>
  {
    match SingleRead(cfg, m)
    case None => Report([], true)
    case Some(buffer) =>
      var first := if cfg.interrupt != 0 then [MakeRow(cfg, cfg.interrupt, DecodeDescriptor(buffer))] else [];
      if !cfg.showAllDescriptors then Report(first, false)
      else
        var r := ReadSlots(m, cfg.kernelPort, cfg.idtAddr, cfg.idtEntries, buffer);
        Report(first + AllRows(cfg, r.lines), r.exited)
  }

  /**
   * show_idt_info: with interrupt != 0 the row of that interrupt, then with
   * -A the rows of every slot below idt_entries whose stub is not 0.
   */
  method ShowIdtInfo(cfg: Config, mem: KM.Device) returns (rows: seq<Row>, exited: bool)
    ensures Report(rows, exited) == ShowReport(cfg, mem.Snapshot())
  {
    var descriptor := ZERO_IMAGE;
    rows := [];
    if cfg.interrupt != 0 {
      var single := ReadDescriptor(mem, cfg.kernelPort, SlotAddress(cfg.idtAddr, WrapInt32(16 * cfg.interrupt)), descriptor);
      if single.None? {
        return [], true;
      }
      descriptor := single.value;
      rows := [MakeRow(cfg, cfg.interrupt, DecodeDescriptor(descriptor))];
    }
    exited := false;
    if cfg.showAllDescriptors {
      var more;
      more, exited := ShowAllDescriptors(cfg, mem, descriptor);
      rows := rows + more;
    }
  }

  /** The -A loop of show_idt_info, starting from the buffer the single read left. */
  method ShowAllDescriptors(cfg: Config, mem: KM.Device, initial: Image) returns (rows: seq<Row>, exited: bool)
    ensures var r := ReadSlots(mem.Snapshot(), cfg.kernelPort, cfg.idtAddr, cfg.idtEntries, initial);
      rows == AllRows(cfg, r.lines) && exited == r.exited
  {
    var descriptor := initial;
    rows := [];
    var x: nat := 0;
    ghost var read: seq<Image> := [];
    while x < cfg.idtEntries
      invariant x <= cfg.idtEntries
      invariant ReadSlots(mem.Snapshot(), cfg.kernelPort, cfg.idtAddr, x, initial) == Report(read, false)
      invariant descriptor == LastBuffer(initial, read)
      invariant rows == AllRows(cfg, read)
    {
      var next;
      next, rows := ShowSlot(cfg, mem, x, initial, read, descriptor, rows);
      if next.None? {
        ReadSlotsExited(mem.Snapshot(), cfg.kernelPort, cfg.idtAddr, x + 1, cfg.idtEntries, initial);
        return rows, true;
      }
      descriptor := next.value;
      read := read + [descriptor];
      x := x + 1;
    }
    exited := false;
  }

  /** One pass of the -A loop: read slot x, then print its row when its stub address is not 0. */
  method ShowSlot(cfg: Config, mem: KM.Device, x: nat, initial: Image, ghost read: seq<Image>, buffer: Image, rows: seq<Row>)
    returns (next: Option<Image>, more: seq<Row>)
    requires ReadSlots(mem.Snapshot(), cfg.kernelPort, cfg.idtAddr, x, initial) == Report(read, false)
    requires buffer == LastBuffer(initial, read)
    requires rows == AllRows(cfg, read)
    ensures ReadSlots(mem.Snapshot(), cfg.kernelPort, cfg.idtAddr, x + 1, initial) ==
      match next case None => Report(read, true) case Some(b) => Report(read + [b], false)
    ensures more == match next case None => rows case Some(b) => AllRows(cfg, read + [b])
  {
    next := ReadSlot(mem, cfg.kernelPort, cfg.idtAddr, x, initial, read, buffer);
    more := rows;
    if next.Some? {
      more := AppendRow(cfg, rows, read, x, next.value);
    }
  }

  /** The body of the -A loop after the read: print the row of buffer b, at index x, when its stub address is not 0. */
  method AppendRow(cfg: Config, rows: seq<Row>, ghost read: seq<Image>, x: nat, b: Image) returns (more: seq<Row>)
    requires x == |read| && rows == AllRows(cfg, read)
    ensures more == AllRows(cfg, read + [b])
  {
    AllRowsSnoc(cfg, read, b);
    var d := DecodeDescriptor(b);
    if ShowStubAddress(d, cfg.kernelType) != 0 {
      more := rows + [MakeRow(cfg, x, d)];
    } else {
      more := rows;
    }
  }

  /** Without -a (interrupt 0) there is no single row: every row comes from the -A loop, and without -A nothing is printed. */
  lemma NoSingleRowWithoutInterrupt(cfg: Config, m: KM.View)
    requires cfg.interrupt == 0
    ensures var r := ShowReport(cfg, m);
      && (!cfg.showAllDescriptors ==> r == Report([], false))
      && (cfg.showAllDescriptors && TableServed(m, cfg.idtAddr, cfg.idtEntries) ==>
            !r.exited && r.lines == AllRows(cfg, ReadSlots(m, cfg.kernelPort, cfg.idtAddr, cfg.idtEntries, ZERO_IMAGE).lines))
  {
    if cfg.showAllDescriptors && TableServed(m, cfg.idtAddr, cfg.idtEntries) {
      ReadSlotsServed(m, cfg.kernelPort, cfg.idtAddr, cfg.idtEntries, ZERO_IMAGE);
    }
  }

  /** With interrupt != 0 and its slot readable, the first row is that interrupt's, printed even when its stub is 0. */
  lemma SingleRowFirst(cfg: Config, m: KM.View)
    requires cfg.interrupt != 0
    requires KM.Serves(m, SlotAddress(cfg.idtAddr, WrapInt32(16 * cfg.interrupt)), DESCRIPTOR_SIZE)
    ensures var r := ShowReport(cfg, m);
      |r.lines| >= 1 && r.lines[0] == MakeRow(cfg, cfg.interrupt, DescriptorAt(m, SlotAddress(cfg.idtAddr, WrapInt32(16 * cfg.interrupt))))
  {
  }

  /**
   * On the kmem path an unreadable single slot ends the process before
   * anything is printed, whatever the other options.
   */
  lemma UnreadableSingleSlotExits(cfg: Config, m: KM.View)
    requires cfg.interrupt != 0 && cfg.kernelPort == 0
    requires !KM.Serves(m, SlotAddress(cfg.idtAddr, WrapInt32(16 * cfg.interrupt)), DESCRIPTOR_SIZE)
    ensures ShowReport(cfg, m) == Report([], true)
  {
  }

  /* ---------------------------------------------------------------- */
  /* create_idt_archive                                               */
  /* ---------------------------------------------------------------- */

  /** The archive file after the walk (None: fopen failed), and whether the process exited. */
  datatype Created = Created(file: Option<seq<Image>>, exited: bool)

  /** What create_idt_archive leaves in the output file: the buffers read, in order. */
  function ArchiveOf(cfg: Config, m: KM.View, writable: bool): Created
  {
    if !writable then Created(None, true)
    else
      var r := ReadSlots(m, cfg.kernelPort, cfg.idtAddr, cfg.idtEntries, ZERO_IMAGE);
      Created(Some(r.lines), r.exited)
  }

  /** create_idt_archive: fwrite every buffer read, idt_entries of them; "[OK] ..." iff !exited. */
  method CreateIdtArchive(cfg: Config, mem: KM.Device, writable: bool) returns (file: Option<seq<Image>>, exited: bool)
    ensures Created(file, exited) == ArchiveOf(cfg, mem.Snapshot(), writable)
  {
    if !writable {
      return None, true;
    }
    var descriptor := ZERO_IMAGE;
    var records: seq<Image> := [];
    var x: nat := 0;
    while x < cfg.idtEntries
      invariant x <= cfg.idtEntries
      invariant ReadSlots(mem.Snapshot(), cfg.kernelPort, cfg.idtAddr, x, ZERO_IMAGE) == Report(records, false)
      invariant descriptor == LastBuffer(ZERO_IMAGE, records)
    {
      var next := ReadSlot(mem, cfg.kernelPort, cfg.idtAddr, x, ZERO_IMAGE, records, descriptor);
      if next.None? {
        ReadSlotsExited(mem.Snapshot(), cfg.kernelPort, cfg.idtAddr, x + 1, cfg.idtEntries, ZERO_IMAGE);
        return Some(records), true;
      }
      descriptor := next.value;
      records := records + [descriptor];
      x := x + 1;
    }
    return Some(records), false;
  }

  /**
   * Over a readable table the archive holds exactly idt_entries records,
   * zero-stub ones included, each the raw 16 bytes of its slot.
   */
  lemma CreateArchiveIsRaw(cfg: Config, m: KM.View)
    requires TableServed(m, cfg.idtAddr, cfg.idtEntries)
    ensures var c := ArchiveOf(cfg, m, true);
      && !c.exited && c.file.Some? && |c.file.value| == cfg.idtEntries
      && forall x :: 0 <= x < cfg.idtEntries ==> c.file.value[x] == KM.ReadAt(m, cfg.idtAddr + 16 * x, DESCRIPTOR_SIZE)
  {
    ReadSlotsServed(m, cfg.kernelPort, cfg.idtAddr, cfg.idtEntries, ZERO_IMAGE);
    forall x | 0 <= x < cfg.idtEntries
      ensures ArchiveOf(cfg, m, true).file.value[x] == KM.ReadAt(m, cfg.idtAddr + 16 * x, DESCRIPTOR_SIZE)
    {
      ReadSlotsRecord(m, cfg.kernelPort, cfg.idtAddr, cfg.idtEntries, ZERO_IMAGE, x);
    }
  }

  /* ---------------------------------------------------------------- */
  /* read_idt_archive                                                 */
  /* ---------------------------------------------------------------- */

  /** One line read_idt_archive prints. */
  datatype Entry = Entry(interrupt: nat, stubAddress: uint64)

  /**
   * The buffer after the (x+1)-th fread: once the file is exhausted fread
   * leaves it holding the last record read, or the initial zeros.
   */
  function SavedRecord(archive: seq<Image>, x: nat): Image
  {
    if x < |archive| then archive[x]
    else if |archive| > 0 then archive[|archive| - 1]
    else ZERO_IMAGE
  }

  /** The entry printed for index x: the stub address decoded from the buffer after the (x+1)-th fread. */
  function ArchiveEntry(cfg: Config, archive: seq<Image>, x: nat): Entry
  {
    Entry(x, StubAddress(DecodeDescriptor(SavedRecord(archive, x)), cfg.kernelType))
  }

  /** The buffer before the (x+1)-th fread: the zeros it starts with, or what the x-th left. */
  function BufferBefore(archive: seq<Image>, x: nat): Image
  {
    if x == 0 then ZERO_IMAGE else SavedRecord(archive, x - 1)
  }

  /** The entries printed for indices 0 to n - 1: one per index, in index order. */
  function Listing(cfg: Config, archive: seq<Image>, n: nat): seq<Entry>
  {
    seq(n, x requires 0 <= x < n => ArchiveEntry(cfg, archive, x))
  }

  /** Everything read_idt_archive prints; a missing file ends the process. */
  function ArchiveListing(cfg: Config, file: Option<seq<Image>>): (r: Report<Entry>)
    ensures file.None? <==> r.exited
  {
    match file
    case None => Report([], true)
    case Some(archive) => Report(Listing(cfg, archive, cfg.idtEntries), false)
  }

  /**
   * One pass of the loop: fread record x into the buffer (past the end of
   * the file the buffer keeps what it held), then print the line decoded from it.
   */
  method ReadEntry(cfg: Config, archive: seq<Image>, x: nat, buffer: Image, entries: seq<Entry>)
    returns (b: Image, more: seq<Entry>)
    requires buffer == BufferBefore(archive, x) && entries == Listing(cfg, archive, x)
    ensures b == BufferBefore(archive, x + 1) && more == Listing(cfg, archive, x + 1)
  {
    b := buffer;
    if x < |archive| {
      b := archive[x];
    }
    var e := Entry(x, StubAddress(DecodeDescriptor(b), cfg.kernelType));
    assert e == ArchiveEntry(cfg, archive, x);
    more := entries + [e];
  }

  /** read_idt_archive: fread and decode idt_entries records, one line each. */
  method ReadIdtArchive(cfg: Config, file: Option<seq<Image>>) returns (entries: seq<Entry>, exited: bool)
    ensures Report(entries, exited) == ArchiveListing(cfg, file)
  {
    if file.None? {
      return [], true;
    }
    var archive := file.value;
    var descriptor := ZERO_IMAGE;
    entries := [];
    var x: nat := 0;
    while x < cfg.idtEntries
      invariant x <= cfg.idtEntries
      invariant entries == Listing(cfg, archive, x)
      invariant descriptor == BufferBefore(archive, x)
    {
      descriptor, entries := ReadEntry(cfg, archive, x, descriptor, entries);
      x := x + 1;
    }
    exited := false;
  }

  /**
   * Reading back an archive just created from a readable table lists, for
   * every index, the address decoded from that slot, zero stubs included.
   */
  lemma CreateThenRead(cfg: Config, m: KM.View)
    requires TableServed(m, cfg.idtAddr, cfg.idtEntries)
    ensures var r := ArchiveListing(cfg, ArchiveOf(cfg, m, true).file);
      && !r.exited && |r.lines| == cfg.idtEntries
      && forall x :: 0 <= x < cfg.idtEntries ==>
           r.lines[x] == Entry(x, StubAddress(DescriptorAt(m, cfg.idtAddr + 16 * x), cfg.kernelType))
  {
    ReadSlotsServed(m, cfg.kernelPort, cfg.idtAddr, cfg.idtEntries, ZERO_IMAGE);
    forall x | 0 <= x < cfg.idtEntries
      ensures ArchiveListing(cfg, ArchiveOf(cfg, m, true).file).lines[x] ==
        Entry(x, StubAddress(DescriptorAt(m, cfg.idtAddr + 16 * x), cfg.kernelType))
    {
      ReadSlotsRecord(m, cfg.kernelPort, cfg.idtAddr, cfg.idtEntries, ZERO_IMAGE, x);
    }
  }

  /** An archive shorter than the walk repeats its last record for the indices past its end. */
  lemma ShortArchiveRepeatsLast(archive: seq<Image>, x: nat)
    requires 0 < |archive| <= x
    ensures SavedRecord(archive, x) == archive[|archive| - 1]
    ensures StubAddress(DecodeDescriptor(SavedRecord(archive, x)), X64) == StubAddress(DecodeDescriptor(archive[|archive| - 1]), X64)
  {
  }
}
