/**
 * compare_idt of idt.c: the walk over 256 slots that compares the stub
 * address saved in an archive with the one decoded from kernel memory,
 * and in restore mode patches the live record and writes it back.
 *
 * Two buffers are reused across the walk: the saved one, which fread
 * leaves as it was once the file is exhausted, and the live one, which a
 * failed task-port read leaves holding the previous slot's bytes, patched
 * or not. The messages are the ERROR_MSG and OUTPUT_MSG lines, as values.
 */
module IdtCompare {
  import opened Global
  import opened Descriptors
  import KM = KernelMemory
  import Idt

  /** The lines compare_idt prints. */
  datatype Message =
    | StubChanged(interrupt: nat, saved: uint64, live: uint64)  // "Hey stub address of interrupt %i has changed!!!", old and new value
    | StubRestored(interrupt: nat)                               // "Restore old stub address of interrupt %i."
    | AllSame                                                    // "[OK] All values for IDT descriptors are the same."

  /** The walk is hard-coded to 256 slots, whatever idt_entries is. */
  const COMPARE_SLOTS: nat := 256

  /* ---------------------------------------------------------------- */
  /* Opening the archive                                              */
  /* ---------------------------------------------------------------- */

  /** What the fopen test decides: compare this archive, exit, or go on with a NULL stream. */
  datatype Opened = Compare(archive: seq<Image>) | OpenExits | NullStream

  /**
   * The test as written, `(file_idt = fopen(...)) != 0`: an archive that
   * opens ends the process with "Error while opening file"; a missing one
   * goes on to fread from a NULL stream, which is undefined.
   */
  function ArchiveOpenAsWritten(file: Option<seq<Image>>): (o: Opened)
    ensures file.Some? ==> o == OpenExits
  {
    if file.Some? then OpenExits else NullStream
  }

  /** As written, no archive is ever compared: an existing one exits, a missing one has no defined outcome. */
  lemma AsWrittenNeverCompares(file: Option<seq<Image>>)
    ensures !ArchiveOpenAsWritten(file).Compare?
    ensures ArchiveOpenAsWritten(Some([ZERO_IMAGE])) == OpenExits
  {
  }

  /** The evidently intended test, `fopen(...) == NULL`: a missing archive exits, an existing one is compared. */
  function ArchiveOpen(file: Option<seq<Image>>): (o: Opened)
    ensures o.Compare? <==> file.Some?
    ensures o.Compare? ==> o.archive == file.value
    ensures !o.NullStream?
  {
    if file.Some? then Compare(file.value) else OpenExits
  }

  /* ---------------------------------------------------------------- */
  /* One slot                                                         */
  /* ---------------------------------------------------------------- */

  /** The state the walk carries from slot to slot. */
  datatype Pass = Pass(mem: KM.View, live: Image, messages: seq<Message>, changed: bool, exited: bool)

  /** `cfg->idt_addr + 16*x`. */
  function SlotOf(cfg: Config, x: nat): uint64
  {
    Idt.SlotAddress(cfg.idtAddr, 16 * x)
  }

  /** save_stub_addr at slot x: decoded from the buffer after the (x+1)-th fread. */
  function SavedStub(cfg: Config, archive: seq<Image>, x: nat): uint64
  {
    StubAddress(DecodeDescriptor(Idt.SavedRecord(archive, x)), cfg.kernelType)
  }

  /** The record restore mode writes back: the live one with the saved address patched in. */
  function Patched(b: Image, saved: uint64): Image
  {
    EncodeDescriptor(RestorePatch(DecodeDescriptor(b), saved))
  }

  /**
   * The body of the loop for slot x: read the live record into the reused
   * buffer; if its stub address differs from the saved one, report it, or
   * in restore mode announce the restore, patch the buffer and writekmem it.
   */
  function CompareStep(cfg: Config, archive: seq<Image>, p: Pass, x: nat): Pass
  {
    var saved := SavedStub(cfg, archive, x);
    var addr := SlotOf(cfg, x);
    match Idt.ReadInto(p.mem, cfg.kernelPort, addr, p.live)
    case None => p.(exited := true)
    case Some(b) =>
      var live := StubAddress(DecodeDescriptor(b), cfg.kernelType);
      if live == saved then p.(live := b)
      else if !cfg.restoreIdt then
        p.(live := b, messages := p.messages + [StubChanged(x, saved, live)], changed := true)
      else
        var patched := Patched(b, saved);
        var logged := p.messages + [StubRestored(x)];
        if KM.Serves(p.mem, addr, DESCRIPTOR_SIZE) then Pass(KM.WriteAt(p.mem, addr, patched), patched, logged, true, false)
        else Pass(p.mem, patched, logged, true, true)
  }

  /** The walk over slots 0 to n - 1 from memory m, cut short where the process exits. */
  function ComparePass(cfg: Config, archive: seq<Image>, m: KM.View, n: nat): Pass
  {
    if n == 0 then Pass(m, ZERO_IMAGE, [], false, false)
    else
      var p := ComparePass(cfg, archive, m, n - 1);
      if p.exited then p else CompareStep(cfg, archive, p, n - 1)
  }

  /** What compare_idt leaves: the lines printed, whether it exited, and kernel memory. */
  datatype Outcome = Outcome(messages: seq<Message>, exited: bool, mem: KM.View)

  /** compare_idt with the corrected fopen test; "[OK] ..." closes a walk that completed without a difference. */
  function CompareOutcome(cfg: Config, file: Option<seq<Image>>, m: KM.View): Outcome
  {
    match ArchiveOpen(file)
    case Compare(archive) =>
      var p := ComparePass(cfg, archive, m, COMPARE_SLOTS);
      Outcome(p.messages + if !p.changed && !p.exited then [AllSame] else [], p.exited, p.mem)
    case _ => Outcome([], true, m)
  }

  /** A walk that has not exited goes on with one more CompareStep. */
  lemma ComparePassStep(cfg: Config, archive: seq<Image>, m: KM.View, x: nat)
    requires !ComparePass(cfg, archive, m, x).exited
    ensures ComparePass(cfg, archive, m, x + 1) == CompareStep(cfg, archive, ComparePass(cfg, archive, m, x), x)
  {
  }

  /** Once the walk has exited, later counts see the same state. */
  lemma {:induction false} ComparePassExited(cfg: Config, archive: seq<Image>, m: KM.View, k: nat, n: nat)
    requires k <= n && ComparePass(cfg, archive, m, k).exited
    ensures ComparePass(cfg, archive, m, n) == ComparePass(cfg, archive, m, k)
    decreases n - k
  {
    if k < n {
      ComparePassExited(cfg, archive, m, k + 1, n);
    }
  }

  /* ---------------------------------------------------------------- */
  /* The method                                                       */
  /* ---------------------------------------------------------------- */

  /** compare_idt over the archive `file` (None: it does not open), with the corrected fopen test. */
  method CompareIdt(cfg: Config, mem: KM.Device, file: Option<seq<Image>>) returns (messages: seq<Message>, exited: bool)
    modifies mem.data
    ensures Outcome(messages, exited, mem.Snapshot()) == CompareOutcome(cfg, file, old(mem.Snapshot()))
  {
    if file.None? {
      return [], true;
    }
    var changed;
    messages, changed, exited := CompareSlots(cfg, mem, file.value);
    if !changed && !exited {
      messages := messages + [AllSame];
    }
  }

  /** The loop of compare_idt over its 256 slots. */
  method CompareSlots(cfg: Config, mem: KM.Device, archive: seq<Image>) returns (messages: seq<Message>, changed: bool, exited: bool)
    modifies mem.data
    ensures var p := ComparePass(cfg, archive, old(mem.Snapshot()), COMPARE_SLOTS);
      && messages == p.messages && changed == p.changed && exited == p.exited && mem.Snapshot() == p.mem
  {
    ghost var m := mem.Snapshot();
    var save := ZERO_IMAGE;
    var actual := ZERO_IMAGE;
    changed := false;
    messages := [];
    var x: nat := 0;
    while x < COMPARE_SLOTS
      invariant x <= COMPARE_SLOTS
      invariant ComparePass(cfg, archive, m, x) == Pass(mem.Snapshot(), actual, messages, changed, false)
      invariant save == Idt.BufferBefore(archive, x)
    {
      ComparePassStep(cfg, archive, m, x);
      var stop;
      save, actual, messages, changed, stop := CompareSlot(cfg, archive, mem, x, save, actual, messages, changed);
      if stop {
        ComparePassExited(cfg, archive, m, x + 1, COMPARE_SLOTS);
        return messages, changed, true;
      }
      x := x + 1;
    }
    exited := false;
  }

  /** One pass of the loop of compare_idt, for slot x. */
  method CompareSlot(cfg: Config, archive: seq<Image>, mem: KM.Device, x: nat,
                     save: Image, actual: Image, messages: seq<Message>, changed: bool)
    returns (save': Image, actual': Image, messages': seq<Message>, changed': bool, stop: bool)
    modifies mem.data
    requires save == Idt.BufferBefore(archive, x)
    ensures save' == Idt.BufferBefore(archive, x + 1)
    ensures Pass(mem.Snapshot(), actual', messages', changed', stop) ==
      CompareStep(cfg, archive, Pass(old(mem.Snapshot()), actual, messages, changed, false), x)
  {
    save' := save;
    if x < |archive| {
      save' := archive[x];
    }
    var savedStub := StubAddress(DecodeDescriptor(save'), cfg.kernelType);
    assert savedStub == SavedStub(cfg, archive, x);
    var read := Idt.ReadDescriptor(mem, cfg.kernelPort, SlotOf(cfg, x), actual);
    actual', messages', changed', stop := actual, messages, changed, false;
    if read.None? {
      stop := true;
      return;
    }
    actual' := read.value;
    var liveStub := StubAddress(DecodeDescriptor(actual'), cfg.kernelType);
    if liveStub != savedStub {
      if !cfg.restoreIdt {
        messages' := messages + [StubChanged(x, savedStub, liveStub)];
      } else {
        messages' := messages + [StubRestored(x)];
        actual' := Patched(actual', savedStub);
        stop := mem.WriteKmem(SlotOf(cfg, x), actual');
      }
      changed' := true;
    }
  }

  /* ---------------------------------------------------------------- */
  /* Report mode                                                      */
  /* ---------------------------------------------------------------- */

  /** Without -R a slot is never written. */
  lemma ReportStepKeepsMemory(cfg: Config, archive: seq<Image>, p: Pass, x: nat)
    requires !cfg.restoreIdt
    ensures CompareStep(cfg, archive, p, x).mem == p.mem
  {
  }

  /** Without -R the walk never writes: kernel memory is left as it was. */
  lemma {:induction false} ReportModeKeepsMemory(cfg: Config, archive: seq<Image>, m: KM.View, n: nat)
    requires !cfg.restoreIdt
    ensures ComparePass(cfg, archive, m, n).mem == m
  {
    hide CompareStep;
    if n > 0 {
      ReportModeKeepsMemory(cfg, archive, m, n - 1);
      var p := ComparePass(cfg, archive, m, n - 1);
      if !p.exited {
        ReportStepKeepsMemory(cfg, archive, p, n - 1);
      }
    }
  }

  /** Without -R compare_idt leaves kernel memory as it was, whatever the archive. */
  lemma ReportModeOutcomeKeepsMemory(cfg: Config, file: Option<seq<Image>>, m: KM.View)
    requires !cfg.restoreIdt
    ensures CompareOutcome(cfg, file, m).mem == m
  {
    if ArchiveOpen(file).Compare? {
      ReportModeKeepsMemory(cfg, ArchiveOpen(file).archive, m, COMPARE_SLOTS);
    }
  }

  /** Without -R, a readable slot x adds its line exactly when its two addresses differ. */
  lemma ReportStep(cfg: Config, archive: seq<Image>, p: Pass, x: nat)
    requires !cfg.restoreIdt && !p.exited && KM.Serves(p.mem, SlotOf(cfg, x), DESCRIPTOR_SIZE)
    ensures var saved, live := SavedStub(cfg, archive, x), StubAddress(Idt.DescriptorAt(p.mem, SlotOf(cfg, x)), cfg.kernelType);
      var q := CompareStep(cfg, archive, p, x);
      && !q.exited && q.mem == p.mem
      && q.messages == p.messages + (if saved != live then [StubChanged(x, saved, live)] else [])
      && q.changed == (p.changed || saved != live)
  {
  }

  /** Over a readable table slot x is `idt_addr + 16*x` and can be read. */
  lemma TableSlots(cfg: Config, m: KM.View, n: nat)
    requires Idt.TableServed(m, cfg.idtAddr, n)
    ensures forall x :: 0 <= x < n ==> SlotOf(cfg, x) == cfg.idtAddr + 16 * x && KM.Serves(m, SlotOf(cfg, x), DESCRIPTOR_SIZE)
  {
    forall x | 0 <= x < n
      ensures SlotOf(cfg, x) == cfg.idtAddr + 16 * x && KM.Serves(m, SlotOf(cfg, x), DESCRIPTOR_SIZE)
    {
      Idt.SlotServed(m, cfg.idtAddr, n, x);
    }
  }

  /** The saved stub addresses of slots 0 to n - 1. */
  function SavedStubs(cfg: Config, archive: seq<Image>, n: nat): seq<uint64>
  {
    seq(n, x requires 0 <= x < n => SavedStub(cfg, archive, x))
  }

  /** The stub addresses decoded from slots 0 to n - 1 of a readable table. */
  function LiveStubs(cfg: Config, m: KM.View, n: nat): seq<uint64>
    requires Idt.TableServed(m, cfg.idtAddr, n)
  {
    TableSlots(cfg, m, n);
    seq(n, x requires 0 <= x < n && KM.Serves(m, SlotOf(cfg, x), DESCRIPTOR_SIZE) =>
      StubAddress(Idt.DescriptorAt(m, SlotOf(cfg, x)), cfg.kernelType))
  }

  /** The report for slots 0 to n - 1: one line per index whose two addresses differ, in index order. */
  function Mismatches(saved: seq<uint64>, live: seq<uint64>, n: nat): seq<Message>
    requires n <= |saved| && n <= |live|
  {
    if n == 0 then []
    else
      Mismatches(saved, live, n - 1) +
        if saved[n - 1] != live[n - 1] then [StubChanged(n - 1, saved[n - 1], live[n - 1])] else []
  }

  /** m is a line for an index below n whose two addresses differ, with both values. */
  predicate Reported(saved: seq<uint64>, live: seq<uint64>, n: nat, m: Message)
    requires n <= |saved| && n <= |live|
  {
    m.StubChanged? && m.interrupt < n && m.saved == saved[m.interrupt] && m.live == live[m.interrupt] && m.saved != m.live
  }

  /** Every line of the report names an index below n whose two addresses differ, with both values. */
  lemma {:induction false} MismatchesSound(saved: seq<uint64>, live: seq<uint64>, n: nat)
    requires n <= |saved| && n <= |live|
    ensures forall i :: 0 <= i < |Mismatches(saved, live, n)| ==> Reported(saved, live, n, Mismatches(saved, live, n)[i])
  {
    if n > 0 {
      MismatchesSound(saved, live, n - 1);
      var prev, r := Mismatches(saved, live, n - 1), Mismatches(saved, live, n);
      forall i | 0 <= i < |r|
        ensures Reported(saved, live, n, r[i])
      {
        if i < |prev| {
          assert r[i] == prev[i];
        } else {
          assert r[i] == StubChanged(n - 1, saved[n - 1], live[n - 1]);
        }
      }
    }
  }

  /** Every index below n whose two addresses differ has its line. */
  lemma {:induction false} MismatchesComplete(saved: seq<uint64>, live: seq<uint64>, n: nat)
    requires n <= |saved| && n <= |live|
    ensures forall x :: 0 <= x < n && saved[x] != live[x] ==>
      StubChanged(x, saved[x], live[x]) in Mismatches(saved, live, n)
  {
    if n > 0 {
      MismatchesComplete(saved, live, n - 1);
      var prev, r := Mismatches(saved, live, n - 1), Mismatches(saved, live, n);
      forall x | 0 <= x < n && saved[x] != live[x]
        ensures StubChanged(x, saved[x], live[x]) in r
      {
        if x < n - 1 {
          var i :| 0 <= i < |prev| && prev[i] == StubChanged(x, saved[x], live[x]);
          assert r[i] == prev[i];
        } else {
          assert r[|prev|] == StubChanged(x, saved[x], live[x]);
        }
      }
    }
  }

  /** The report is empty exactly when the two addresses agree at every index below n. */
  lemma MismatchesEmpty(saved: seq<uint64>, live: seq<uint64>, n: nat)
    requires n <= |saved| && n <= |live|
    ensures Mismatches(saved, live, n) == [] <==> forall x :: 0 <= x < n ==> saved[x] == live[x]
  {
    MismatchesSound(saved, live, n);
    MismatchesComplete(saved, live, n);
  }

  /**
   * In report mode, when slots 0 to k - 1 are readable, the first k slots
   * leave memory alone and report the mismatches between `saved` and `live`,
   * the saved and the decoded address of each slot.
   */
  lemma {:induction false} ReportModePass(cfg: Config, archive: seq<Image>, m: KM.View, saved: seq<uint64>, live: seq<uint64>, k: nat)
    requires !cfg.restoreIdt && k <= |saved| && k <= |live|
    requires forall x :: 0 <= x < k ==> KM.Serves(m, SlotOf(cfg, x), DESCRIPTOR_SIZE)
    requires forall x :: 0 <= x < k ==> saved[x] == SavedStub(cfg, archive, x)
    requires forall x :: 0 <= x < k ==> live[x] == StubAddress(Idt.DescriptorAt(m, SlotOf(cfg, x)), cfg.kernelType)
    ensures var p := ComparePass(cfg, archive, m, k);
      && !p.exited && p.mem == m
      && p.messages == Mismatches(saved, live, k)
      && p.changed == (|p.messages| > 0)
  {
    hide CompareStep, SavedStub, StubAddress, Idt.DescriptorAt;
    if k > 0 {
      ReportModePass(cfg, archive, m, saved, live, k - 1);
      ComparePassStep(cfg, archive, m, k - 1);
      ReportStep(cfg, archive, ComparePass(cfg, archive, m, k - 1), k - 1);
    }
  }

  /**
   * Without -R, over a readable 256-slot table, compare_idt prints a line
   * (x, saved, live) for exactly the indices whose addresses differ, and
   * "[OK] ..." alone when there is none; memory is left as it was.
   */
  lemma CompareReports(cfg: Config, archive: seq<Image>, m: KM.View)
    requires !cfg.restoreIdt && Idt.TableServed(m, cfg.idtAddr, COMPARE_SLOTS)
    ensures var o := CompareOutcome(cfg, Some(archive), m);
      var r := Mismatches(SavedStubs(cfg, archive, COMPARE_SLOTS), LiveStubs(cfg, m, COMPARE_SLOTS), COMPARE_SLOTS);
      && !o.exited && o.mem == m
      && o.messages == if r == [] then [AllSame] else r
  {
    TableSlots(cfg, m, COMPARE_SLOTS);
    ReportModePass(cfg, archive, m, SavedStubs(cfg, archive, COMPARE_SLOTS), LiveStubs(cfg, m, COMPARE_SLOTS), COMPARE_SLOTS);
  }

  /** ... so "[OK] ..." is printed exactly when every slot decodes to its saved address. */
  lemma CompareAllSameIff(cfg: Config, archive: seq<Image>, m: KM.View)
    requires !cfg.restoreIdt && Idt.TableServed(m, cfg.idtAddr, COMPARE_SLOTS)
    ensures CompareOutcome(cfg, Some(archive), m).messages == [AllSame] <==>
      forall x :: 0 <= x < COMPARE_SLOTS ==>
        SavedStub(cfg, archive, x) == StubAddress(Idt.DescriptorAt(m, cfg.idtAddr + 16 * x), cfg.kernelType)
  {
    hide CompareOutcome, ComparePass, CompareStep, Mismatches, SavedStub, StubAddress, Idt.DescriptorAt;
    CompareReports(cfg, archive, m);
    var saved, live := SavedStubs(cfg, archive, COMPARE_SLOTS), LiveStubs(cfg, m, COMPARE_SLOTS);
    var r := Mismatches(saved, live, COMPARE_SLOTS);
    MismatchesEmpty(saved, live, COMPARE_SLOTS);
    MismatchesSound(saved, live, COMPARE_SLOTS);
    TableSlots(cfg, m, COMPARE_SLOTS);
    forall x | 0 <= x < COMPARE_SLOTS
      ensures saved[x] == SavedStub(cfg, archive, x)
      ensures live[x] == StubAddress(Idt.DescriptorAt(m, cfg.idtAddr + 16 * x), cfg.kernelType)
    {
    }
    if r != [] {
      assert r[0].StubChanged?;
    }
  }

  /* ---------------------------------------------------------------- */
  /* Restore mode                                                     */
  /* ---------------------------------------------------------------- */

  /** The record restore mode leaves in a slot that held b: patched when its address differs from the saved one. */
  function Fixed(cfg: Config, b: Image, saved: uint64): Image
  {
    if StubAddress(DecodeDescriptor(b), cfg.kernelType) != saved then Patched(b, saved) else b
  }

  /**
   * The patch as fields: offset_low becomes saved & 0xFFFF and offset_high
   * (saved >> 16) & 0xFFFF; selector, reserved, flag, offset_middle and
   * reserved2 keep their live values.
   */
  lemma PatchedFields(b: Image, saved: uint64)
    ensures var d, e := DecodeDescriptor(b), DecodeDescriptor(Patched(b, saved));
      && e.offsetLow == saved % TWO_16 && e.offsetHigh == (saved / TWO_16) % TWO_16
      && e.segSelector == d.segSelector && e.reserved == d.reserved && e.flag == d.flag
      && e.offsetMiddle == d.offsetMiddle && e.reserved2 == d.reserved2
  {
    DecodeEncodeDescriptor(RestorePatch(DecodeDescriptor(b), saved));
  }

  /** The patch in bytes: bytes 2-7 and 12-15 of the slot keep their values. */
  lemma PatchedBytes(b: Image, saved: uint64)
    ensures var a := Patched(b, saved);
      && a[2..8] == b[2..8] && a[12..16] == b[12..16]
      && LE.UIntAt(a, 0, 2) == saved % TWO_16 && LE.UIntAt(a, 8, 4) == (saved / TWO_16) % TWO_16
  {
    EncodeDecodeDescriptor(b);
    RestorePatchBytes(DecodeDescriptor(b), saved);
  }

  /** Restoring a slot a second time with the same saved address changes nothing more. */
  lemma FixedIdempotent(cfg: Config, b: Image, saved: uint64)
    ensures Fixed(cfg, Fixed(cfg, b, saved), saved) == Fixed(cfg, b, saved)
  {
    var d := DecodeDescriptor(b);
    if StubAddress(d, cfg.kernelType) != saved {
      DecodeEncodeDescriptor(RestorePatch(d, saved));
      RestorePatchIdempotent(d, saved);
    }
  }

  /**
   * With -R, a readable slot x is announced and rewritten exactly when its
   * address differs from the saved one, and no byte outside its 16 is written.
   */
  lemma RestoreStep(cfg: Config, archive: seq<Image>, p: Pass, x: nat)
    requires cfg.restoreIdt && !p.exited && KM.Serves(p.mem, SlotOf(cfg, x), DESCRIPTOR_SIZE)
    ensures var addr, saved := SlotOf(cfg, x), SavedStub(cfg, archive, x);
      var b := Idt.ImageAt(p.mem, addr);
      var differs := StubAddress(DecodeDescriptor(b), cfg.kernelType) != saved;
      var q := CompareStep(cfg, archive, p, x);
      && !q.exited
      && q.messages == p.messages + (if differs then [StubRestored(x)] else [])
      && q.changed == (p.changed || differs)
      && KM.SameOutside(p.mem, q.mem, addr, addr + DESCRIPTOR_SIZE)
      && Idt.ImageAt(q.mem, addr) == Fixed(cfg, b, saved)
  {
    var addr, saved := SlotOf(cfg, x), SavedStub(cfg, archive, x);
    var b := Idt.ImageAt(p.mem, addr);
    if StubAddress(DecodeDescriptor(b), cfg.kernelType) != saved {
      KM.WriteAtSameOutside(p.mem, addr, Patched(b, saved));
    }
  }

  /** The report of restore mode for slots 0 to n - 1: one line per index whose two addresses differ. */
  function Restores(saved: seq<uint64>, live: seq<uint64>, n: nat): seq<Message>
    requires n <= |saved| && n <= |live|
  {
    if n == 0 then []
    else
      Restores(saved, live, n - 1) +
        if saved[n - 1] != live[n - 1] then [StubRestored(n - 1)] else []
  }

  /** Restore mode announces the same indices, in the same order, as report mode lists. */
  lemma {:induction false} RestoresMirrorMismatches(saved: seq<uint64>, live: seq<uint64>, n: nat)
    requires n <= |saved| && n <= |live|
    ensures var r, c := Restores(saved, live, n), Mismatches(saved, live, n);
      |r| == |c| && forall i :: 0 <= i < |r| ==> c[i].StubChanged? && r[i] == StubRestored(c[i].interrupt)
  {
    if n > 0 {
      RestoresMirrorMismatches(saved, live, n - 1);
      var r, c := Restores(saved, live, n), Mismatches(saved, live, n);
      var r', c' := Restores(saved, live, n - 1), Mismatches(saved, live, n - 1);
      forall i | 0 <= i < |r|
        ensures c[i].StubChanged? && r[i] == StubRestored(c[i].interrupt)
      {
        if i < |r'| {
          assert r[i] == r'[i] && c[i] == c'[i];
        }
      }
    }
  }

  /** Slot x of a readable table is idtAddr + 16x, and the slots before it end where it begins. */
  lemma TableSlot(cfg: Config, m: KM.View, n: nat, x: nat)
    requires Idt.TableServed(m, cfg.idtAddr, n) && x < n
    ensures SlotOf(cfg, x) == cfg.idtAddr + 16 * x
    ensures KM.Serves(m, SlotOf(cfg, x), DESCRIPTOR_SIZE) && Idt.TableServed(m, cfg.idtAddr, x)
  {
    Idt.SlotServed(m, cfg.idtAddr, n, x);
  }

  /**
   * With -R over a readable table, the first k slots exit nowhere, announce
   * each index whose two addresses differ, write no byte outside slots 0 to
   * k - 1, and leave each of those slots as Fixed makes it.
   */
  lemma {:induction false} RestoreModePass(cfg: Config, archive: seq<Image>, m: KM.View, saved: seq<uint64>, live: seq<uint64>, k: nat)
    requires cfg.restoreIdt && k <= |saved| && k <= |live| && Idt.TableServed(m, cfg.idtAddr, k)
    requires forall x :: 0 <= x < k ==> saved[x] == SavedStub(cfg, archive, x)
    requires forall x :: 0 <= x < k ==> live[x] == StubAddress(Idt.DescriptorAt(m, cfg.idtAddr + 16 * x), cfg.kernelType)
    ensures var p := ComparePass(cfg, archive, m, k);
      && !p.exited && p.messages == Restores(saved, live, k) && p.changed == (|p.messages| > 0)
      && KM.SameOutside(m, p.mem, cfg.idtAddr, cfg.idtAddr + 16 * k)
      && forall x :: 0 <= x < k ==>
        Idt.ImageAt(p.mem, cfg.idtAddr + 16 * x) == Fixed(cfg, Idt.ImageAt(m, cfg.idtAddr + 16 * x), saved[x])
  {
    hide CompareStep, SavedStub, StubAddress, DecodeDescriptor, Fixed;
    if k > 0 {
      var j := k - 1;
      TableSlot(cfg, m, k, j);
      var a := cfg.idtAddr + 16 * j;
      RestoreModePass(cfg, archive, m, saved, live, j);
      var p := ComparePass(cfg, archive, m, j);
      ComparePassStep(cfg, archive, m, j);
      KM.ReadOutside(m, p.mem, cfg.idtAddr, cfg.idtAddr + 16 * j, a, DESCRIPTOR_SIZE);
      RestoreStep(cfg, archive, p, j);
      var q := CompareStep(cfg, archive, p, j);
      KM.SameOutsideTrans(m, p.mem, q.mem, cfg.idtAddr, cfg.idtAddr + 16 * k, cfg.idtAddr, cfg.idtAddr + 16 * j, a, a + DESCRIPTOR_SIZE);
      forall x | 0 <= x < k
        ensures Idt.ImageAt(q.mem, cfg.idtAddr + 16 * x) == Fixed(cfg, Idt.ImageAt(m, cfg.idtAddr + 16 * x), saved[x])
      {
        if x < j {
          KM.ReadOutside(p.mem, q.mem, a, a + DESCRIPTOR_SIZE, cfg.idtAddr + 16 * x, DESCRIPTOR_SIZE);
        }
      }
    }
  }

  /**
   * With -R over a readable 256-slot table, compare_idt announces exactly the
   * indices whose addresses differ ("[OK] ..." when none does), writes no byte
   * outside the table, and leaves each slot as Fixed makes it.
   */
  lemma CompareRestores(cfg: Config, archive: seq<Image>, m: KM.View)
    requires cfg.restoreIdt && Idt.TableServed(m, cfg.idtAddr, COMPARE_SLOTS)
    ensures var o := CompareOutcome(cfg, Some(archive), m);
      var r := Restores(SavedStubs(cfg, archive, COMPARE_SLOTS), LiveStubs(cfg, m, COMPARE_SLOTS), COMPARE_SLOTS);
      && !o.exited && o.messages == (if r == [] then [AllSame] else r)
      && KM.SameOutside(m, o.mem, cfg.idtAddr, cfg.idtAddr + 16 * COMPARE_SLOTS)
      && forall x :: 0 <= x < COMPARE_SLOTS ==>
        Idt.ImageAt(o.mem, cfg.idtAddr + 16 * x) == Fixed(cfg, Idt.ImageAt(m, cfg.idtAddr + 16 * x), SavedStub(cfg, archive, x))
  {
    hide ComparePass, CompareStep, SavedStub, StubAddress, DecodeDescriptor, Fixed, Restores, Idt.DescriptorAt, Idt.ImageAt;
    TableSlots(cfg, m, COMPARE_SLOTS);
    RestoreModePass(cfg, archive, m, SavedStubs(cfg, archive, COMPARE_SLOTS), LiveStubs(cfg, m, COMPARE_SLOTS), COMPARE_SLOTS);
  }

  /** Two views that agree outside a table of n slots and on each of its slots are the same view. */
  lemma SlotsDetermine(m: KM.View, r: KM.View, lo: int, n: nat)
    requires KM.SameOutside(m, r, lo, lo + 16 * n) && KM.Serves(m, lo, 16 * n)
    requires forall x :: 0 <= x < n ==> KM.ReadAt(r, lo + 16 * x, DESCRIPTOR_SIZE) == KM.ReadAt(m, lo + 16 * x, DESCRIPTOR_SIZE)
    ensures r == m
  {
    forall i | 0 <= i < |m.bytes|
      ensures r.bytes[i] == m.bytes[i]
    {
      var o := m.base + i - lo;
      if 0 <= o < 16 * n {
        var x, k := o / 16, o % 16;
        assert lo + 16 * x + k == m.base + i;
        assert KM.ReadAt(r, lo + 16 * x, DESCRIPTOR_SIZE)[k] == r.bytes[i];
        assert KM.ReadAt(m, lo + 16 * x, DESCRIPTOR_SIZE)[k] == m.bytes[i];
      }
    }
    assert r.bytes == m.bytes;
  }

  /**
   * -C -R runs compare_idt twice in restore mode: over a readable table the
   * second pass writes back what the first left, so memory ends as after one pass.
   */
  lemma RestoreTwiceIsOnce(cfg: Config, archive: seq<Image>, m: KM.View)
    requires cfg.restoreIdt && Idt.TableServed(m, cfg.idtAddr, COMPARE_SLOTS)
    ensures var once := CompareOutcome(cfg, Some(archive), m).mem;
      CompareOutcome(cfg, Some(archive), once).mem == once
  {
    hide ComparePass, CompareStep, Restores, LiveStubs, SavedStubs;
    var once := CompareOutcome(cfg, Some(archive), m).mem;
    CompareRestores(cfg, archive, m);
    CompareRestores(cfg, archive, once);
    var twice := CompareOutcome(cfg, Some(archive), once).mem;
    hide CompareOutcome, SavedStub, StubAddress, DecodeDescriptor, Fixed;
    forall x | 0 <= x < COMPARE_SLOTS
      ensures KM.ReadAt(twice, cfg.idtAddr + 16 * x, DESCRIPTOR_SIZE) == KM.ReadAt(once, cfg.idtAddr + 16 * x, DESCRIPTOR_SIZE)
    {
      FixedIdempotent(cfg, Idt.ImageAt(m, cfg.idtAddr + 16 * x), SavedStub(cfg, archive, x));
    }
    SlotsDetermine(once, twice, cfg.idtAddr, COMPARE_SLOTS);
  }

  /**
   * The 255/256 mismatch: an archive made with idt_entries = 255 holds slots
   * 0 to 254, and the 256th fread leaves slot 254's record in the buffer, so
   * the saved address of slot 255 is the live address of slot 254.
   */
  lemma FreshArchiveStubs(cfg: Config, m: KM.View)
    requires cfg.idtEntries == COMPARE_SLOTS - 1 && Idt.TableServed(m, cfg.idtAddr, COMPARE_SLOTS)
    ensures var archive := Idt.ArchiveOf(cfg, m, true).file.value;
      var saved, live := SavedStubs(cfg, archive, COMPARE_SLOTS), LiveStubs(cfg, m, COMPARE_SLOTS);
      forall x :: 0 <= x < COMPARE_SLOTS ==> saved[x] == live[if x < COMPARE_SLOTS - 1 then x else COMPARE_SLOTS - 2]
  {
    assert Idt.TableServed(m, cfg.idtAddr, cfg.idtEntries);
    Idt.CreateArchiveIsRaw(cfg, m);
    var archive := Idt.ArchiveOf(cfg, m, true).file.value;
    var saved, live := SavedStubs(cfg, archive, COMPARE_SLOTS), LiveStubs(cfg, m, COMPARE_SLOTS);
    TableSlots(cfg, m, COMPARE_SLOTS);
    hide StubAddress, DecodeDescriptor, Idt.ArchiveOf;
    forall x | 0 <= x < COMPARE_SLOTS
      ensures saved[x] == live[if x < 255 then x else 254]
    {
      var y := if x < 255 then x else 254;
      assert Idt.SavedRecord(archive, x) == archive[y];
      assert archive[y] == Idt.ImageAt(m, SlotOf(cfg, y));
    }
  }

  /**
   * So comparing a fresh archive at once against the same readable table
   * reports slot 255 alone, against the address of slot 254, whenever the two differ.
   */
  lemma CompareFreshArchive(cfg: Config, m: KM.View)
    requires !cfg.restoreIdt && cfg.idtEntries == COMPARE_SLOTS - 1 && Idt.TableServed(m, cfg.idtAddr, COMPARE_SLOTS)
    ensures var archive := Idt.ArchiveOf(cfg, m, true).file.value;
      var last, previous := StubAddress(Idt.DescriptorAt(m, cfg.idtAddr + 16 * 255), cfg.kernelType),
                            StubAddress(Idt.DescriptorAt(m, cfg.idtAddr + 16 * 254), cfg.kernelType);
      CompareOutcome(cfg, Some(archive), m).messages ==
        if last == previous then [AllSame] else [StubChanged(255, previous, last)]
  {
    hide CompareOutcome, ComparePass, CompareStep, StubAddress, DecodeDescriptor, SavedStub,
      Idt.DescriptorAt, Idt.ImageAt, SlotOf, Idt.TableServed;
    var archive := Idt.ArchiveOf(cfg, m, true).file.value;
    var saved, live := SavedStubs(cfg, archive, COMPARE_SLOTS), LiveStubs(cfg, m, COMPARE_SLOTS);
    FreshArchiveStubs(cfg, m);
    CompareReports(cfg, archive, m);
    TableSlots(cfg, m, COMPARE_SLOTS);
    MismatchesEmpty(saved, live, COMPARE_SLOTS - 1);
    assert saved[255] == live[254];
  }
}
