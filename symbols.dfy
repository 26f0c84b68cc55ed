/**
 * retrieve_kernel_symbols and resolve_symbol of kernel.c: the symbol table
 * read out of the kernel's own Mach-O 64 image, and the lookup of a live
 * (slid) stub address in it.
 *
 * The image is the mapped file as a byte sequence. The source does no
 * bounds checking; a read that would fall outside the image makes the
 * model answer Malformed instead. Each entry's name is read here, during
 * the load, although the source keeps only a pointer to it and reads it
 * when resolve_symbol finds the entry: an unterminated name therefore makes
 * the whole load Malformed.
 */
module Symbols {
  import opened Global
  import LE = LittleEndian

  /* <mach-o/loader.h> and <mach-o/nlist.h> */
  const MH_MAGIC_64: uint32 := 0xfeed_facf
  const LC_SEGMENT_64: uint32 := 0x19
  const LC_SYMTAB: uint32 := 0x2
  const MACH_HEADER_64_SIZE: nat := 32
  const NLIST_64_SIZE: nat := 16

  /** "__LINKEDIT" */
  const LINKEDIT: seq<uint8> := [0x5f, 0x5f, 0x4c, 0x49, 0x4e, 0x4b, 0x45, 0x44, 0x49, 0x54]

  /* ---------------------------------------------------------------- */
  /* strncmp                                                          */
  /* ---------------------------------------------------------------- */

  /**
   * `strncmp(s + at, b, n)` for a NUL-terminated b, reading s only as far
   * as the comparison goes: Some(true) when the first n characters agree
   * (stopping early at a common NUL), Some(false) at the first difference,
   * None when s ends before either.
   */
  function StrncmpAt(s: seq<uint8>, at: nat, b: seq<uint8>, n: nat): Option<bool>
    requires 0 in b
    decreases n
  {
    if n == 0 then Some(true)
    else if at >= |s| then None
    else if s[at] != b[0] then Some(false)
    else if s[at] == 0 then Some(true)
    else
      assert 0 in b[1..] by { var k :| 0 <= k < |b| && b[k] == 0; assert b[1..][k - 1] == 0; }
      StrncmpAt(s, at + 1, b[1..], n - 1)
  }

  /**
   * Against a NUL-free literal shorter than n, strncmp == 0 means the
   * literal then a NUL, and the comparison runs off the end of s exactly
   * when what is left of s is a proper prefix of the literal.
   */
  lemma {:induction false} StrncmpLiteral(s: seq<uint8>, at: nat, lit: seq<uint8>, n: nat)
    requires 0 !in lit && |lit| < n
    ensures 0 in lit + [0]
    ensures StrncmpAt(s, at, lit + [0], n) == Some(true) <==>
      at + |lit| < |s| && s[at..at + |lit|] == lit && s[at + |lit|] == 0
    ensures StrncmpAt(s, at, lit + [0], n) == None <==>
      at >= |s| || (|s| - at <= |lit| && s[at..] == lit[..|s| - at])
    decreases n
  {
    assert (lit + [0])[|lit|] == 0;
    if |lit| > 0 && at < |s| {
      assert (lit + [0])[1..] == lit[1..] + [0];
      StrncmpLiteral(s, at + 1, lit[1..], n - 1);
      assert lit == [lit[0]] + lit[1..];
      assert s[at..] == [s[at]] + s[at + 1..];
      if at + |lit| < |s| {
        assert s[at..at + |lit|] == [s[at]] + s[at + 1..at + 1 + |lit[1..]|];
      }
      if |s| - at <= |lit| {
        assert lit[..|s| - at] == [lit[0]] + lit[1..][..|s| - (at + 1)];
      }
    }
  }

  /**
   * `strncmp(seg_cmd->segname, "__LINKEDIT", 16)` on the segment command at
   * `at`: equal exactly for "__LINKEDIT" then a NUL, and reading past the
   * image exactly when the image ends inside a prefix of "__LINKEDIT".
   */
  lemma StrncmpLinkedit(image: seq<uint8>, at: nat)
    requires at + 8 <= |image|
    ensures 0 in LINKEDIT + [0]
    ensures StrncmpAt(image, at + 8, LINKEDIT + [0], 16) == Some(true) <==>
      at + 19 <= |image| && image[at + 8..at + 18] == LINKEDIT && image[at + 18] == 0
    ensures StrncmpAt(image, at + 8, LINKEDIT + [0], 16) == None <==>
      |image| <= at + 18 && image[at + 8..] == LINKEDIT[..|image| - (at + 8)]
  {
    StrncmpLiteral(image, at + 8, LINKEDIT, 16);
  }

  /* ---------------------------------------------------------------- */
  /* The load-command walk                                            */
  /* ---------------------------------------------------------------- */

  /** linkedit_fileoff and linkedit_size: where __LINKEDIT lies in the file. */
  datatype Linkedit = Linkedit(fileoff: uint64, filesize: uint64)

  /** The four fields of the LC_SYMTAB command the symbol loop uses. */
  datatype Symtab = Symtab(symoff: uint32, nsyms: uint32, stroff: uint32, strsize: uint32)

  /** The locals the walk fills in. */
  datatype LoadInfo = LoadInfo(linkedit: Linkedit, symtab: Symtab)

  const NO_LOAD_INFO: LoadInfo := LoadInfo(Linkedit(0, 0), Symtab(0, 0, 0, 0))

  /** load_cmd_addr as an offset into the image, with the locals seen so far. */
  datatype Walk = Walk(cursor: nat, info: LoadInfo)

  /** The little-endian 32-bit field at offset at. */
  function Field32(image: seq<uint8>, at: nat): uint32
    requires at + 4 <= |image|
  {
    LE.Pow256Values();
    LE.UIntAt(image, at, 4)
  }

  /** The little-endian 64-bit field at offset at. */
  function Field64(image: seq<uint8>, at: nat): uint64
    requires at + 8 <= |image|
  {
    LE.Pow256Values();
    LE.UIntAt(image, at, 8)
  }

  function Cmd(image: seq<uint8>, at: nat): uint32
    requires at + 8 <= |image|
  {
    Field32(image, at)
  }

  function CmdSize(image: seq<uint8>, at: nat): uint32
    requires at + 8 <= |image|
  {
    Field32(image, at + 4)
  }

  /** The command at `at` is an LC_SEGMENT_64 named __LINKEDIT. */
  predicate IsLinkeditAt(image: seq<uint8>, at: nat)
  {
    at + 8 <= |image| && Cmd(image, at) == LC_SEGMENT_64 && StrncmpAt(image, at + 8, LINKEDIT + [0], 16) == Some(true)
  }

  predicate IsSymtabAt(image: seq<uint8>, at: nat)
  {
    at + 8 <= |image| && Cmd(image, at) == LC_SYMTAB
  }

  /** segment_command_64: fileoff at 40, filesize at 48. */
  function LinkeditAt(image: seq<uint8>, at: nat): Linkedit
    requires at + 56 <= |image|
  {
    Linkedit(Field64(image, at + 40), Field64(image, at + 48))
  }

  /** symtab_command: symoff at 8, nsyms at 12, stroff at 16, strsize at 20. */
  function SymtabAt(image: seq<uint8>, at: nat): Symtab
    requires at + 24 <= |image|
  {
    Symtab(Field32(image, at + 8), Field32(image, at + 12), Field32(image, at + 16), Field32(image, at + 20))
  }

  /** Every field the loop body reads of the command at `at` lies inside the image. */
  predicate CommandFits(image: seq<uint8>, at: nat)
  {
    && at + 8 <= |image|
    && (Cmd(image, at) == LC_SEGMENT_64 ==>
          StrncmpAt(image, at + 8, LINKEDIT + [0], 16).Some? && (IsLinkeditAt(image, at) ==> at + 56 <= |image|))
    && (Cmd(image, at) == LC_SYMTAB ==> at + 24 <= |image|)
  }

  /**
   * One pass of the loop body: an LC_SEGMENT_64 named __LINKEDIT sets the
   * linkedit fields, an LC_SYMTAB the four table fields; then advance by cmdsize.
   */
  function Step(image: seq<uint8>, w: Walk): Walk
    requires CommandFits(image, w.cursor)
  {
    var at := w.cursor;
    var info :=
      if IsLinkeditAt(image, at) then w.info.(linkedit := LinkeditAt(image, at))
      else if IsSymtabAt(image, at) then w.info.(symtab := SymtabAt(image, at))
      else w.info;
    Walk(at + CmdSize(image, at), info)
  }

  /** The state after the first k commands, starting just after the 32-byte header; None if a read leaves the image. */
  function Commands(image: seq<uint8>, k: nat): Option<Walk>
  {
    if k == 0 then Some(Walk(MACH_HEADER_64_SIZE, NO_LOAD_INFO))
    else match Commands(image, k - 1)
      case None => None
      case Some(w) => if CommandFits(image, w.cursor) then Some(Step(image, w)) else None
  }

  /** The walk starts at offset 32 and each command starts where the previous one's cmdsize ends. */
  lemma CommandCursors(image: seq<uint8>, k: nat)
    requires Commands(image, k + 1).Some?
    ensures Commands(image, k).Some? && CommandFits(image, Commands(image, k).value.cursor)
    ensures var at := Commands(image, k).value.cursor;
      Commands(image, k + 1).value.cursor == at + CmdSize(image, at)
    ensures Commands(image, 0).value.cursor == MACH_HEADER_64_SIZE
  {
  }

  /** The offset of the k-th command, for k below a count the walk completes. */
  function CursorAt(image: seq<uint8>, n: nat, k: nat): nat
    requires k < n && Commands(image, n).Some?
  {
    PrefixCompletes(image, n, k);
    Commands(image, k).value.cursor
  }

  lemma {:induction false} PrefixCompletes(image: seq<uint8>, n: nat, k: nat)
    requires k <= n && Commands(image, n).Some?
    ensures Commands(image, k).Some?
    decreases n - k
  {
    if k < n {
      PrefixCompletes(image, n, k + 1);
      CommandCursors(image, k);
    }
  }

  /** A command only changes the fields its own kind carries. */
  lemma StepFrame(image: seq<uint8>, w: Walk)
    requires CommandFits(image, w.cursor)
    ensures !IsLinkeditAt(image, w.cursor) ==> Step(image, w).info.linkedit == w.info.linkedit
    ensures !IsSymtabAt(image, w.cursor) ==> Step(image, w).info.symtab == w.info.symtab
    ensures IsLinkeditAt(image, w.cursor) ==> w.cursor + 56 <= |image| && Step(image, w).info.linkedit == LinkeditAt(image, w.cursor)
    ensures IsSymtabAt(image, w.cursor) ==> w.cursor + 24 <= |image| && Step(image, w).info.symtab == SymtabAt(image, w.cursor)
  {
  }

  /** A run of commands without a __LINKEDIT segment leaves the linkedit fields as they were. */
  lemma {:induction false} LinkeditPersists(image: seq<uint8>, k: nat, n: nat)
    requires k <= n && Commands(image, n).Some?
    requires forall j :: k <= j < n ==> !IsLinkeditAt(image, CursorAt(image, n, j))
    ensures Commands(image, k).Some?
    ensures Commands(image, n).value.info.linkedit == Commands(image, k).value.info.linkedit
    decreases n - k
  {
    PrefixCompletes(image, n, k);
    if k < n {
      PrefixCompletes(image, n, k + 1);
      CommandCursors(image, k);
      var w := Commands(image, k).value;
      assert CursorAt(image, n, k) == w.cursor;
      assert Commands(image, k + 1) == Some(Step(image, w));
      StepFrame(image, w);
      LinkeditPersists(image, k + 1, n);
    }
  }

  /** A run of commands without an LC_SYMTAB leaves the symbol-table fields as they were. */
  lemma {:induction false} SymtabPersists(image: seq<uint8>, k: nat, n: nat)
    requires k <= n && Commands(image, n).Some?
    requires forall j :: k <= j < n ==> !IsSymtabAt(image, CursorAt(image, n, j))
    ensures Commands(image, k).Some?
    ensures Commands(image, n).value.info.symtab == Commands(image, k).value.info.symtab
    decreases n - k
  {
    PrefixCompletes(image, n, k);
    if k < n {
      PrefixCompletes(image, n, k + 1);
      CommandCursors(image, k);
      var w := Commands(image, k).value;
      assert CursorAt(image, n, k) == w.cursor;
      assert Commands(image, k + 1) == Some(Step(image, w));
      StepFrame(image, w);
      SymtabPersists(image, k + 1, n);
    }
  }

  /** Without any __LINKEDIT segment the linkedit fields keep their initial 0. */
  lemma NoLinkeditKeepsZero(image: seq<uint8>, n: nat)
    requires Commands(image, n).Some?
    requires forall j :: 0 <= j < n ==> !IsLinkeditAt(image, CursorAt(image, n, j))
    ensures Commands(image, n).value.info.linkedit == Linkedit(0, 0)
  {
    LinkeditPersists(image, 0, n);
  }

  /** The last __LINKEDIT segment among the first n commands is the one whose fileoff and filesize are kept. */
  lemma LastLinkeditWins(image: seq<uint8>, n: nat, k: nat)
    requires k < n && Commands(image, n).Some?
    requires IsLinkeditAt(image, CursorAt(image, n, k))
    requires forall j :: k < j < n ==> !IsLinkeditAt(image, CursorAt(image, n, j))
    ensures CursorAt(image, n, k) + 56 <= |image|
    ensures Commands(image, n).value.info.linkedit == LinkeditAt(image, CursorAt(image, n, k))
  {
    hide IsLinkeditAt, Commands;
    LinkeditSetAt(image, n, k);
    LinkeditPersists(image, k + 1, n);
  }

  /** Command k of a walk that completes n commands is a __LINKEDIT segment: after it the linkedit fields are its own. */
  lemma LinkeditSetAt(image: seq<uint8>, n: nat, k: nat)
    requires k < n && Commands(image, n).Some?
    requires IsLinkeditAt(image, CursorAt(image, n, k))
    ensures CursorAt(image, n, k) + 56 <= |image| && Commands(image, k + 1).Some?
    ensures Commands(image, k + 1).value.info.linkedit == LinkeditAt(image, CursorAt(image, n, k))
  {
    PrefixCompletes(image, n, k + 1);
    CommandCursors(image, k);
    var w := Commands(image, k).value;
    assert w.cursor == CursorAt(image, n, k);
    var info := CommandEffect(image, w, k);
  }

  /** Command k of a walk that completes n commands is an LC_SYMTAB: after it the table fields are its own. */
  lemma SymtabSetAt(image: seq<uint8>, n: nat, k: nat)
    requires k < n && Commands(image, n).Some?
    requires IsSymtabAt(image, CursorAt(image, n, k))
    ensures CursorAt(image, n, k) + 24 <= |image| && Commands(image, k + 1).Some?
    ensures Commands(image, k + 1).value.info.symtab == SymtabAt(image, CursorAt(image, n, k))
  {
    PrefixCompletes(image, n, k + 1);
    CommandCursors(image, k);
    var w := Commands(image, k).value;
    assert w.cursor == CursorAt(image, n, k);
    var info := CommandEffect(image, w, k);
  }

  /** The state after command k, when command k is readable: StepFrame's facts about Commands(image, k + 1). */
  lemma CommandEffect(image: seq<uint8>, w: Walk, k: nat) returns (info: LoadInfo)
    requires Commands(image, k) == Some(w) && CommandFits(image, w.cursor)
    ensures Commands(image, k + 1).Some? && Commands(image, k + 1).value.info == info
    ensures IsLinkeditAt(image, w.cursor) ==> w.cursor + 56 <= |image| && info.linkedit == LinkeditAt(image, w.cursor)
    ensures IsSymtabAt(image, w.cursor) ==> w.cursor + 24 <= |image| && info.symtab == SymtabAt(image, w.cursor)
  {
    info := Step(image, w).info;
    StepFrame(image, w);
  }

  /** The last LC_SYMTAB among the first n commands is the one whose four fields are kept. */
  lemma LastSymtabWins(image: seq<uint8>, n: nat, k: nat)
    requires k < n && Commands(image, n).Some?
    requires IsSymtabAt(image, CursorAt(image, n, k))
    requires forall j :: k < j < n ==> !IsSymtabAt(image, CursorAt(image, n, j))
    ensures CursorAt(image, n, k) + 24 <= |image|
    ensures Commands(image, n).value.info.symtab == SymtabAt(image, CursorAt(image, n, k))
  {
    hide IsSymtabAt, Commands;
    SymtabSetAt(image, n, k);
    SymtabPersists(image, k + 1, n);
  }

  /* ---------------------------------------------------------------- */
  /* The symbol loop                                                  */
  /* ---------------------------------------------------------------- */

  /**
   * `linkedit_buf + (symoff - linkedit_fileoff) + i * sizeof(struct nlist_64)`
   * as an offset into the image, with the 64-bit wrap-around of the address arithmetic.
   */
  function NlistOffset(info: LoadInfo, i: uint32): int
  {
    var l := info.linkedit.fileoff;
    (l + (info.symtab.symoff - l) % TWO_64 + i * NLIST_64_SIZE) % TWO_64
  }

  /** `linkedit_buf + (stroff - linkedit_fileoff) + n_strx` */
  function StringOffset(info: LoadInfo, strx: uint32): int
  {
    var l := info.linkedit.fileoff;
    (l + (info.symtab.stroff - l) % TWO_64 + strx) % TWO_64
  }

  /** The __LINKEDIT file offset cancels: entries sit at symoff + 16 i, names at stroff + n_strx. */
  lemma LinkeditCancels(info: LoadInfo, i: uint32, strx: uint32)
    ensures NlistOffset(info, i) == info.symtab.symoff + NLIST_64_SIZE * i
    ensures StringOffset(info, strx) == info.symtab.stroff + strx
  {
    var l, t := info.linkedit.fileoff, info.symtab;
    assert (l + (t.symoff - l) % TWO_64) % TWO_64 == t.symoff;
    assert (l + (t.stroff - l) % TWO_64) % TWO_64 == t.stroff;
  }

  /** The NUL-terminated string at offset `at`; None if it does not end inside the image. */
  function CStringAt(image: seq<uint8>, at: int): (r: Option<seq<uint8>>)
    decreases |image| - at
  {
    if at < 0 || at >= |image| then None
    else if image[at] == 0 then Some([])
    else match CStringAt(image, at + 1)
      case None => None
      case Some(rest) => Some([image[at]] + rest)
  }

  /** The string read is the bytes up to the first NUL at or after `at`; it is missing only when no NUL follows. */
  lemma {:induction false} CStringAtSpec(image: seq<uint8>, at: int)
    ensures match CStringAt(image, at)
      case Some(s) => 0 <= at && at + |s| < |image| && image[at..at + |s|] == s && image[at + |s|] == 0 && 0 !in s
      case None => at < 0 || forall k :: at <= k < |image| ==> image[k] != 0
    decreases |image| - at
  {
    if 0 <= at < |image| && image[at] != 0 {
      CStringAtSpec(image, at + 1);
      match CStringAt(image, at + 1)
      case Some(rest) =>
        assert CStringAt(image, at) == Some([image[at]] + rest);
        assert image[at..at + 1 + |rest|] == [image[at]] + image[at + 1..at + 1 + |rest|];
      case None =>
    }
  }

  /** Each byte of the name, as the char of the same code. */
  function BytesToString(s: seq<uint8>): (r: string)
    ensures |r| == |s| && forall i :: 0 <= i < |s| ==> r[i] == s[i] as char
  {
    if |s| == 0 then [] else [s[0] as char] + BytesToString(s[1..])
  }

  /** Entry i of the symbol table: n_value of the nlist_64 (n_strx at 0, n_value at 8) and its name. */
  function SymbolAt(image: seq<uint8>, info: LoadInfo, i: uint32): Option<SymbolEntry>
  {
    var at := NlistOffset(info, i);
    if at + NLIST_64_SIZE > |image| then None
    else match CStringAt(image, StringOffset(info, Field32(image, at)))
      case None => None
      case Some(name) => Some(SymbolEntry(Field64(image, at + 8), BytesToString(name)))
  }

  /** The first n entries of the symbol table in table order; None if one of them cannot be read. */
  function SymbolTable(image: seq<uint8>, info: LoadInfo, n: nat): Option<seq<SymbolEntry>>
    requires n <= TWO_32
  {
    if n == 0 then Some([])
    else match SymbolTable(image, info, n - 1)
      case None => None
      case Some(t) =>
        match SymbolAt(image, info, n - 1)
        case None => None
        case Some(e) => Some(t + [e])
  }

  /** Exactly n entries, none dropped or merged, entry i read from nlist i. */
  lemma {:induction false} SymbolTableEntries(image: seq<uint8>, info: LoadInfo, n: nat)
    requires n <= TWO_32
    ensures SymbolTable(image, info, n).Some? ==>
      var t := SymbolTable(image, info, n).value;
      |t| == n && forall i :: 0 <= i < n ==> SymbolAt(image, info, i) == Some(t[i])
  {
    if n > 0 && SymbolTable(image, info, n).Some? {
      SymbolTableEntries(image, info, n - 1);
      var t := SymbolTable(image, info, n - 1).value;
      assert SymbolTable(image, info, n).value == t + [SymbolAt(image, info, n - 1).value];
    }
  }

  /** The list after `SLIST_INSERT_HEAD` of each entry in turn. */
  function InsertedAtHead(entries: seq<SymbolEntry>): (list: seq<SymbolEntry>)
  {
    if |entries| == 0 then [] else [entries[|entries| - 1]] + InsertedAtHead(entries[..|entries| - 1])
  }

  /** Insertion at the head keeps every entry, duplicates included, in the reverse of table order. */
  lemma {:induction false} InsertedAtHeadReverses(entries: seq<SymbolEntry>)
    ensures var list := InsertedAtHead(entries);
      |list| == |entries| && forall j :: 0 <= j < |list| ==> list[j] == entries[|entries| - 1 - j]
  {
    if |entries| > 0 {
      var init := entries[..|entries| - 1];
      InsertedAtHeadReverses(init);
      var list := InsertedAtHead(entries);
      forall j | 0 <= j < |list| ensures list[j] == entries[|entries| - 1 - j] {
        if j > 0 {
          assert list[j] == InsertedAtHead(init)[j - 1];
        }
      }
    }
  }

  datatype SymbolLoad =
    | Loaded(symbols: seq<SymbolEntry>)
    | NotMachO64        // "Target /mach_kernel is not 64 bits only!": the list stays empty
    | Malformed         // a read the source would make outside the image

  /** What retrieve_kernel_symbols builds from the image. */
  function KernelSymbols(image: seq<uint8>): SymbolLoad
  {
    LE.Pow256Values();
    if |image| < 4 then Malformed
    else if Field32(image, 0) != MH_MAGIC_64 then NotMachO64
    else if |image| < 20 then Malformed
    else match Commands(image, Field32(image, 16))
      case None => Malformed
      case Some(w) =>
        match SymbolTable(image, w.info, w.info.symtab.nsyms)
        case None => Malformed
        case Some(t) => Loaded(InsertedAtHead(t))
  }

  /** An image whose first word is not MH_MAGIC_64 yields no symbols. */
  lemma WrongMagicNoSymbols(image: seq<uint8>)
    requires |image| >= 4 && Field32(image, 0) != MH_MAGIC_64
    ensures KernelSymbols(image) == NotMachO64
  {
  }

  /** The 32-bit field at `at` when its four bytes are known. */
  lemma Word32(image: seq<uint8>, at: nat, w: seq<uint8>)
    requires |w| == 4 && at + 4 <= |image| && image[at..at + 4] == w
    ensures Field32(image, at) == w[0] as int + 256 * w[1] as int + 65536 * w[2] as int + 16777216 * w[3] as int
  {
    LE.Pow256Values();
    assert LE.Decode(w[3..]) == w[3] as int by { assert w[3..][1..] == []; }
    assert LE.Decode(w[2..]) == w[2] as int + 256 * LE.Decode(w[3..]) by { assert w[2..][1..] == w[3..]; }
    assert LE.Decode(w[1..]) == w[1] as int + 256 * LE.Decode(w[2..]) by { assert w[1..][1..] == w[2..]; }
    assert image[at..at + 4] == w;
  }

  /**
   * A 41-byte image holding the header and a single LC_SEGMENT_64 that is
   * cut off right after the first byte of its segname: that byte already
   * differs from "__LINKEDIT", so strncmp reads no further and the load
   * ends with an empty list.
   */
  lemma TruncatedSegmentLoads()
    ensures var image := [0xcf, 0xfa, 0xed, 0xfe] + seq(12, _ => 0) + [1, 0, 0, 0] + seq(12, _ => 0)
                         + [0x19, 0, 0, 0, 0x48, 0, 0, 0, 0x58];
      |image| == 41 && KernelSymbols(image) == Loaded([])
  {
    var image := [0xcf, 0xfa, 0xed, 0xfe] + seq(12, _ => 0) + [1, 0, 0, 0] + seq(12, _ => 0)
                 + [0x19, 0, 0, 0, 0x48, 0, 0, 0, 0x58];
    LE.Pow256Values();
    Word32(image, 0, [0xcf, 0xfa, 0xed, 0xfe]);
    Word32(image, 16, [1, 0, 0, 0]);
    Word32(image, 32, [0x19, 0, 0, 0]);
    Word32(image, 36, [0x48, 0, 0, 0]);
    assert image[40] != (LINKEDIT + [0])[0];
    assert StrncmpAt(image, 40, LINKEDIT + [0], 16) == Some(false);
    assert CommandFits(image, 32) && !IsLinkeditAt(image, 32) && !IsSymtabAt(image, 32);
    assert Commands(image, 1) == Some(Walk(32 + 0x48, NO_LOAD_INFO));
  }

  /**
   * retrieve_kernel_symbols: check the magic, walk the ncmds load commands,
   * then insert the nsyms entries of the last LC_SYMTAB at the head of the list.
   */
  method RetrieveKernelSymbols(image: seq<uint8>) returns (r: SymbolLoad)
    ensures r == KernelSymbols(image)
  {
    LE.Pow256Values();
    if |image| < 4 {
      return Malformed;
    }
    if Field32(image, 0) != MH_MAGIC_64 {
      return NotMachO64;
    }
    if |image| < 20 {
      return Malformed;
    }
    var walk := WalkLoadCommands(image, Field32(image, 16));
    if walk.None? {
      return Malformed;
    }
    var symbols := ReadSymbolTable(image, walk.value.info);
    if symbols.None? {
      return Malformed;
    }
    return Loaded(symbols.value);
  }

  /** The first loop of retrieve_kernel_symbols. */
  method WalkLoadCommands(image: seq<uint8>, ncmds: uint32) returns (r: Option<Walk>)
    ensures r == Commands(image, ncmds)
  {
    var loadCmdAddr: nat := MACH_HEADER_64_SIZE;
    var info := NO_LOAD_INFO;
    var i: uint32 := 0;
    while i < ncmds
      invariant i <= ncmds
      invariant Commands(image, i) == Some(Walk(loadCmdAddr, info))
    {
      var next := NextCommand(image, i, loadCmdAddr, info);
      if next.None? {
        PrefixNone(image, i + 1, ncmds);
        return None;
      }
      loadCmdAddr, info := next.value.cursor, next.value.info;
      i := i + 1;
    }
    return Some(Walk(loadCmdAddr, info));
  }

  /** One pass of the first loop for command k at `at`: None when a field it reads lies outside the image. */
  method NextCommand(image: seq<uint8>, k: nat, at: nat, info: LoadInfo) returns (next: Option<Walk>)
    requires Commands(image, k) == Some(Walk(at, info))
    ensures next == Commands(image, k + 1)
  {
    if !CommandFits(image, at) {
      return None;
    }
    var after := ApplyCommand(image, at, info);
    CommandsStep(image, k, Walk(at, info));
    return Some(Walk(at + CmdSize(image, at), after));
  }

  /** A readable command extends the walk by one Step. */
  lemma CommandsStep(image: seq<uint8>, k: nat, w: Walk)
    requires Commands(image, k) == Some(w) && CommandFits(image, w.cursor)
    ensures Commands(image, k + 1) == Some(Step(image, w))
  {
  }

  /** The body of the first loop for the command at `at`: the locals it leaves, as Step describes. */
  method ApplyCommand(image: seq<uint8>, at: nat, info: LoadInfo) returns (next: LoadInfo)
    requires CommandFits(image, at)
    ensures Walk(at + CmdSize(image, at), next) == Step(image, Walk(at, info))
  {
    LE.Pow256Values();
    next := info;
    var cmd := Cmd(image, at);
    if cmd == LC_SEGMENT_64 {
      StrncmpLinkedit(image, at);
      if StrncmpAt(image, at + 8, LINKEDIT + [0], 16) == Some(true) {
        next := info.(linkedit := Linkedit(Field64(image, at + 40), Field64(image, at + 48)));
      }
    } else if cmd == LC_SYMTAB {
      next := info.(symtab := Symtab(Field32(image, at + 8), Field32(image, at + 12),
                                     Field32(image, at + 16), Field32(image, at + 20)));
    }
  }

  /** The second loop of retrieve_kernel_symbols: read nlist i, insert it at the head. */
  method ReadSymbolTable(image: seq<uint8>, info: LoadInfo) returns (r: Option<seq<SymbolEntry>>)
    ensures r == match SymbolTable(image, info, info.symtab.nsyms) case None => None case Some(t) => Some(InsertedAtHead(t))
  {
    var symbols: seq<SymbolEntry> := [];
    ghost var table: seq<SymbolEntry> := [];
    var i: uint32 := 0;
    while i < info.symtab.nsyms
      invariant i <= info.symtab.nsyms
      invariant SymbolTable(image, info, i) == Some(table)
      invariant symbols == InsertedAtHead(table)
    {
      var entry := SymbolAt(image, info, i);
      if entry.None? {
        SymbolTableNone(image, info, i + 1, info.symtab.nsyms);
        return None;
      }
      SymbolTableStep(image, info, i, table, entry.value);
      InsertedAtHeadSnoc(table, entry.value);
      table := table + [entry.value];
      symbols := [entry.value] + symbols;
      i := i + 1;
    }
    return Some(symbols);
  }

  /** Entry i read after the first i extends the table by it. */
  lemma SymbolTableStep(image: seq<uint8>, info: LoadInfo, i: nat, table: seq<SymbolEntry>, e: SymbolEntry)
    requires i < TWO_32
    ensures SymbolTable(image, info, i) == Some(table) && SymbolAt(image, info, i) == Some(e) ==>
      SymbolTable(image, info, i + 1) == Some(table + [e])
  {
  }

  /** The entry inserted last is the head of the list. */
  lemma InsertedAtHeadSnoc(entries: seq<SymbolEntry>, e: SymbolEntry)
    ensures InsertedAtHead(entries + [e]) == [e] + InsertedAtHead(entries)
  {
    assert (entries + [e])[..|entries|] == entries;
  }

  lemma {:induction false} PrefixNone(image: seq<uint8>, k: nat, n: nat)
    requires k <= n && Commands(image, k).None?
    ensures Commands(image, n).None?
    decreases n - k
  {
    if k < n {
      PrefixNone(image, k + 1, n);
    }
  }

  lemma {:induction false} SymbolTableNone(image: seq<uint8>, info: LoadInfo, k: nat, n: nat)
    requires k <= n <= TWO_32 && SymbolTable(image, info, k).None?
    ensures SymbolTable(image, info, n).None?
    decreases n - k
  {
    if k < n {
      SymbolTableNone(image, info, k + 1, n);
    }
  }

  /* ---------------------------------------------------------------- */
  /* resolve_symbol                                                   */
  /* ---------------------------------------------------------------- */

  const CANT_RESOLVE: string := "can't resolve"

  /** `stub_addr - cfg->kaslr_slide` in 64-bit unsigned arithmetic. */
  function Unslide(stub: uint64, slide: uint64): uint64
  {
    (stub - slide) % TWO_64
  }

  /** The position of the first list element whose address is addr; |symbols| when there is none. */
  function FirstMatch(symbols: seq<SymbolEntry>, addr: uint64): (i: nat)
    ensures i <= |symbols|
  {
    if |symbols| == 0 || symbols[0].address == addr then 0
    else 1 + FirstMatch(symbols[1..], addr)
  }

  /** The first match carries the address and no element before it does. */
  lemma {:induction false} FirstMatchSpec(symbols: seq<SymbolEntry>, addr: uint64)
    ensures var i := FirstMatch(symbols, addr);
      (i < |symbols| ==> symbols[i].address == addr) &&
      forall k :: 0 <= k < i ==> symbols[k].address != addr
  {
    if |symbols| > 0 && symbols[0].address != addr {
      FirstMatchSpec(symbols[1..], addr);
      var i := FirstMatch(symbols[1..], addr);
      assert forall k :: 1 <= k < i + 1 ==> symbols[k] == symbols[1..][k - 1];
    }
  }

  /** The name of the first list element whose address is addr, if any. */
  function Lookup(symbols: seq<SymbolEntry>, addr: uint64): Option<string>
  {
    var i := FirstMatch(symbols, addr);
    if i < |symbols| then Some(symbols[i].name) else None
  }

  /** A name is found exactly when some element carries the address. */
  lemma LookupFound(symbols: seq<SymbolEntry>, addr: uint64)
    ensures Lookup(symbols, addr).Some? <==> exists j :: 0 <= j < |symbols| && symbols[j].address == addr
  {
    FirstMatchSpec(symbols, addr);
  }

  /** What resolve_symbol leaves in the caller's buffer. */
  function ResolvedName(symbols: seq<SymbolEntry>, stub: uint64, slide: uint64): string
  {
    match Lookup(symbols, Unslide(stub, slide))
    case Some(name) => name
    case None => CANT_RESOLVE
  }

  /** resolve_symbol: scan the list from its head until an address matches; it never fails. */
  method ResolveSymbol(symbols: seq<SymbolEntry>, stub: uint64, slide: uint64) returns (name: string)
    ensures name == ResolvedName(symbols, stub, slide)
  {
    var found := false;
    var i := 0;
    name := "";
    while i < |symbols|
      invariant 0 <= i <= |symbols| && !found
      invariant forall k :: 0 <= k < i ==> symbols[k].address != Unslide(stub, slide)
    {
      if stub - slide == symbols[i].address as int || stub - slide + TWO_64 == symbols[i].address as int {
        name := symbols[i].name;
        found := true;
        break;
      }
      i := i + 1;
    }
    if !found {
      name := CANT_RESOLVE;
    }
    FirstMatchUnique(symbols, Unslide(stub, slide), i);
  }

  /** The first match is the one index with a match and none before it. */
  lemma {:induction false} FirstMatchUnique(symbols: seq<SymbolEntry>, addr: uint64, i: nat)
    requires i <= |symbols|
    requires i < |symbols| ==> symbols[i].address == addr
    requires forall k :: 0 <= k < i ==> symbols[k].address != addr
    ensures FirstMatch(symbols, addr) == i
    decreases i
  {
    if i > 0 {
      assert forall k :: 0 <= k < i - 1 ==> symbols[1..][k] == symbols[k + 1];
      FirstMatchUnique(symbols[1..], addr, i - 1);
    }
  }

  /** A table entry is found again from its slid address, whatever the slide. */
  lemma UnslideSlid(address: uint64, slide: uint64)
    ensures Unslide((address + slide) % TWO_64, slide) == address
  {
  }

  /** The example of the design: {0x1000, "foo"} resolves from 0x1000 + slide; other addresses do not resolve. */
  lemma ResolveExample(slide: uint64, stub: uint64)
    ensures ResolvedName([SymbolEntry(0x1000, "foo")], (0x1000 + slide) % TWO_64, slide) == "foo"
    ensures Unslide(stub, slide) != 0x1000 ==> ResolvedName([SymbolEntry(0x1000, "foo")], stub, slide) == CANT_RESOLVE
  {
    UnslideSlid(0x1000, slide);
  }

  /**
   * Among duplicate addresses the lookup answers with the entry of highest
   * index in the symbol table, because every entry went in at the head.
   */
  lemma LookupFindsLastTableEntry(table: seq<SymbolEntry>, addr: uint64) returns (i: nat)
    requires Lookup(InsertedAtHead(table), addr).Some?
    ensures i < |table| && table[i] == SymbolEntry(addr, Lookup(InsertedAtHead(table), addr).value)
    ensures forall i' :: i < i' < |table| ==> table[i'].address != addr
  {
    var l := InsertedAtHead(table);
    InsertedAtHeadReverses(table);
    var j := FirstMatch(l, addr);
    FirstMatchSpec(l, addr);
    i := |table| - 1 - j;
    assert table[i] == l[j];
    forall i' | i < i' < |table| ensures table[i'].address != addr {
      var j' := |table| - 1 - i';
      assert j' < j && table[i'] == l[j'];
    }
  }
}
