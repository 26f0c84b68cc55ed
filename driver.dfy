/**
 * main of main.c: the getopt loop folded into `struct config`, the probes
 * and the kernel-type gate, `idt_entries`, the optional symbol load, and
 * the flag-guarded table operations run in their fixed order.
 *
 * getopt itself and atoi are not modelled: the loop is handed the options
 * getopt returns, an -a option carrying atoi's value. What the system
 * answers (hw.machine, the IDTR image SIDT stores, the KASLR slide, whether
 * /dev/kmem opens, the kernel image, whether the output file can be
 * created) is a Host value; the file system is a map from names to archives.
 */
module Driver {
  import opened Global
  import opened Descriptors
  import KM = KernelMemory
  import KernelProbe
  import Symbols
  import Idt
  import IdtCompare

  /* ---------------------------------------------------------------- */
  /* The option loop                                                  */
  /* ---------------------------------------------------------------- */

  /** What getopt(argc, argv, "ha:Aco:Ci:rRs") returns; Other is '?' and anything the switch has no case for. */
  datatype Opt =
    | Help | Interrupt(value: int32) | ShowAll | Create | Read | Restore
    | Out(path: string) | Compare | In(path: string) | Resolve | Other(c: char)

  /** What the loop ends with: the configuration, exit(1) after usage for -h, or return -1 for a path too long. */
  datatype Parsed = Proceed(cfg: Config) | Usage | PathTooLong

  /** `strlen(optarg) > MAXPATHLEN - 1`. */
  predicate TooLong(path: string)
  {
    |path| > MAXPATHLEN - 1
  }

  /** An option that ends the loop. */
  predicate Stops(o: Opt)
  {
    o.Help? || (o.Out? && TooLong(o.path)) || (o.In? && TooLong(o.path))
  }

  /** One pass of the switch. */
  function ApplyOpt(cfg: Config, o: Opt): (r: Parsed)
    ensures r.Proceed? <==> !Stops(o)
  {
    match o
    case Help => Usage
    case Interrupt(v) => Proceed(cfg.(interrupt := v))
    case ShowAll => Proceed(cfg.(showAllDescriptors := true))
    case Create => Proceed(cfg.(createFileArchive := true))
    case Read => Proceed(cfg.(readFileArchive := true))
    case Restore => Proceed(cfg.(restoreIdt := true))
    case Out(p) => if TooLong(p) then PathTooLong else Proceed(cfg.(outFilename := p))
    case Compare => Proceed(cfg.(compareIdt := true))
    case In(p) => if TooLong(p) then PathTooLong else Proceed(cfg.(inFilename := p))
    case Resolve => Proceed(cfg.(resolve := true))
    case Other(_) => Proceed(cfg)
  }

  /** The loop over opts, starting from cfg. */
  function ParseFrom(cfg: Config, opts: seq<Opt>): Parsed
    decreases |opts|
  {
    if |opts| == 0 then Proceed(cfg)
    else match ApplyOpt(cfg, opts[0])
      case Proceed(c) => ParseFrom(c, opts[1..])
      case r => r
  }

  /** The option loop of main over `struct config cfg = {0}`. */
  method ParseOptions(opts: seq<Opt>) returns (r: Parsed)
    ensures r == ParseFrom(ZERO_CONFIG, opts)
  {
    var cfg := ZERO_CONFIG;
    var i := 0;
    while i < |opts|
      invariant i <= |opts|
      invariant ParseFrom(ZERO_CONFIG, opts) == ParseFrom(cfg, opts[i..])
    {
      assert opts[i..][1..] == opts[i + 1..];
      match opts[i] {
        case Help =>
          return Usage;
        case Interrupt(v) =>
          cfg := cfg.(interrupt := v);
        case ShowAll =>
          cfg := cfg.(showAllDescriptors := true);
        case Create =>
          cfg := cfg.(createFileArchive := true);
        case Read =>
          cfg := cfg.(readFileArchive := true);
        case Restore =>
          cfg := cfg.(restoreIdt := true);
        case Out(p) =>
          if |p| > MAXPATHLEN - 1 {
            return PathTooLong;
          }
          cfg := cfg.(outFilename := p);
        case Compare =>
          cfg := cfg.(compareIdt := true);
        case In(p) =>
          if |p| > MAXPATHLEN - 1 {
            return PathTooLong;
          }
          cfg := cfg.(inFilename := p);
        case Resolve =>
          cfg := cfg.(resolve := true);
        case Other(_) =>
      }
      i := i + 1;
    }
    return Proceed(cfg);
  }

  /** The loop over opts + [o] is the loop over opts followed by one more pass, unless it already ended. */
  lemma {:induction false} ParseSnoc(cfg: Config, opts: seq<Opt>, o: Opt)
    ensures ParseFrom(cfg, opts + [o]) ==
      match ParseFrom(cfg, opts) case Proceed(c) => ApplyOpt(c, o) case r => r
    decreases |opts|
  {
    if |opts| == 0 {
      assert [o][1..] == [];
    } else {
      assert (opts + [o])[1..] == opts[1..] + [o];
      match ApplyOpt(cfg, opts[0])
      case Proceed(c) => ParseSnoc(c, opts[1..], o);
      case _ =>
    }
  }

  /** The loop runs to the end exactly when no option is -h or an over-long -o/-i path. */
  lemma {:induction false} ParseProceedsIff(cfg: Config, opts: seq<Opt>)
    ensures ParseFrom(cfg, opts).Proceed? <==> forall i :: 0 <= i < |opts| ==> !Stops(opts[i])
    decreases |opts|
  {
    if |opts| > 0 {
      match ApplyOpt(cfg, opts[0])
      case Proceed(c) =>
        ParseProceedsIff(c, opts[1..]);
        assert forall i :: 1 <= i < |opts| ==> opts[i] == opts[1..][i - 1];
      case _ =>
    }
  }

  /** The first option that ends the loop decides how: exit(1) for -h, return -1 for a long path. */
  lemma {:induction false} ParseStopsAtFirst(cfg: Config, opts: seq<Opt>, i: nat)
    requires i < |opts| && Stops(opts[i]) && forall j :: 0 <= j < i ==> !Stops(opts[j])
    ensures ParseFrom(cfg, opts) == if opts[i].Help? then Usage else PathTooLong
    decreases i
  {
    if i > 0 {
      var c := ApplyOpt(cfg, opts[0]).cfg;
      assert forall j :: 0 <= j < i - 1 ==> opts[1..][j] == opts[j + 1];
      ParseStopsAtFirst(c, opts[1..], i - 1);
    }
  }

  /** Options that are not in the option string change nothing. */
  lemma {:induction false} OtherIgnored(cfg: Config, a: seq<Opt>, ch: char, b: seq<Opt>)
    ensures ParseFrom(cfg, a + [Other(ch)] + b) == ParseFrom(cfg, a + b)
    decreases |a|
  {
    if |a| == 0 {
      assert (a + [Other(ch)] + b)[1..] == b && a + b == b;
    } else {
      assert (a + [Other(ch)] + b)[1..] == a[1..] + [Other(ch)] + b;
      assert (a + b)[1..] == a[1..] + b;
      match ApplyOpt(cfg, a[0])
      case Proceed(c) => OtherIgnored(c, a[1..], ch, b);
      case _ =>
    }
  }

  /** One pass of the switch sets the field its option names and leaves every other field as it was. */
  lemma ApplyOptFields(cfg: Config, o: Opt)
    requires !Stops(o)
    ensures var c := ApplyOpt(cfg, o).cfg;
      && c.outFilename == (if o.Out? then o.path else cfg.outFilename)
      && c.inFilename == (if o.In? then o.path else cfg.inFilename)
      && c.interrupt == (if o.Interrupt? then o.value else cfg.interrupt)
      && (c.showAllDescriptors <==> cfg.showAllDescriptors || o == ShowAll)
      && (c.createFileArchive <==> cfg.createFileArchive || o == Create)
      && (c.readFileArchive <==> cfg.readFileArchive || o == Read)
      && (c.compareIdt <==> cfg.compareIdt || o == Compare)
      && (c.restoreIdt <==> cfg.restoreIdt || o == Restore)
      && (c.resolve <==> cfg.resolve || o == Resolve)
      && c.(inFilename := cfg.inFilename, outFilename := cfg.outFilename, interrupt := cfg.interrupt,
            showAllDescriptors := cfg.showAllDescriptors, createFileArchive := cfg.createFileArchive,
            readFileArchive := cfg.readFileArchive, compareIdt := cfg.compareIdt,
            restoreIdt := cfg.restoreIdt, resolve := cfg.resolve) == cfg
  {
  }

  /** The -o path in `cfg` is the one of the last -o option, or the initial one when there is none. */
  lemma {:induction false} LastOutWins(cfg: Config, opts: seq<Opt>)
    requires ParseFrom(cfg, opts).Proceed?
    ensures var c := ParseFrom(cfg, opts).cfg;
      && ((forall i :: 0 <= i < |opts| ==> !opts[i].Out?) ==> c.outFilename == cfg.outFilename)
      && forall i :: 0 <= i < |opts| && opts[i].Out? && (forall j :: i < j < |opts| ==> !opts[j].Out?) ==>
           c.outFilename == opts[i].path
  {
    if |opts| > 0 {
      var init, o := opts[..|opts| - 1], opts[|opts| - 1];
      assert opts == init + [o];
      ParseSnoc(cfg, init, o);
      LastOutWins(cfg, init);
      hide ParseFrom, ApplyOpt;
      ApplyOptFields(ParseFrom(cfg, init).cfg, o);
    }
  }

  /** The -i path in `cfg` is the one of the last -i option, or the initial one when there is none. */
  lemma {:induction false} LastInWins(cfg: Config, opts: seq<Opt>)
    requires ParseFrom(cfg, opts).Proceed?
    ensures var c := ParseFrom(cfg, opts).cfg;
      && ((forall i :: 0 <= i < |opts| ==> !opts[i].In?) ==> c.inFilename == cfg.inFilename)
      && forall i :: 0 <= i < |opts| && opts[i].In? && (forall j :: i < j < |opts| ==> !opts[j].In?) ==>
           c.inFilename == opts[i].path
  {
    if |opts| > 0 {
      var init, o := opts[..|opts| - 1], opts[|opts| - 1];
      assert opts == init + [o];
      ParseSnoc(cfg, init, o);
      LastInWins(cfg, init);
      hide ParseFrom, ApplyOpt;
      ApplyOptFields(ParseFrom(cfg, init).cfg, o);
    }
  }

  /** The interrupt in `cfg` is the value of the last -a option, or the initial one when there is none. */
  lemma {:induction false} LastInterruptWins(cfg: Config, opts: seq<Opt>)
    requires ParseFrom(cfg, opts).Proceed?
    ensures var c := ParseFrom(cfg, opts).cfg;
      && ((forall i :: 0 <= i < |opts| ==> !opts[i].Interrupt?) ==> c.interrupt == cfg.interrupt)
      && forall i :: 0 <= i < |opts| && opts[i].Interrupt? && (forall j :: i < j < |opts| ==> !opts[j].Interrupt?) ==>
           c.interrupt == opts[i].value
  {
    if |opts| > 0 {
      var init, o := opts[..|opts| - 1], opts[|opts| - 1];
      assert opts == init + [o];
      ParseSnoc(cfg, init, o);
      LastInterruptWins(cfg, init);
      hide ParseFrom, ApplyOpt;
      ApplyOptFields(ParseFrom(cfg, init).cfg, o);
    }
  }

  /**
   * Each flag is set exactly when it was set before or its option occurs,
   * and the loop touches no field but the nine the options name.
   */
  lemma {:induction false} ParseFlags(cfg: Config, opts: seq<Opt>)
    requires ParseFrom(cfg, opts).Proceed?
    ensures var c := ParseFrom(cfg, opts).cfg;
      && (c.showAllDescriptors <==> cfg.showAllDescriptors || ShowAll in opts)
      && (c.createFileArchive <==> cfg.createFileArchive || Create in opts)
      && (c.readFileArchive <==> cfg.readFileArchive || Read in opts)
      && (c.compareIdt <==> cfg.compareIdt || Compare in opts)
      && (c.restoreIdt <==> cfg.restoreIdt || Restore in opts)
      && (c.resolve <==> cfg.resolve || Resolve in opts)
      && c.(inFilename := cfg.inFilename, outFilename := cfg.outFilename, interrupt := cfg.interrupt,
            showAllDescriptors := cfg.showAllDescriptors, createFileArchive := cfg.createFileArchive,
            readFileArchive := cfg.readFileArchive, compareIdt := cfg.compareIdt,
            restoreIdt := cfg.restoreIdt, resolve := cfg.resolve) == cfg
  {
    if |opts| > 0 {
      var init, o := opts[..|opts| - 1], opts[|opts| - 1];
      assert opts == init + [o];
      ParseSnoc(cfg, init, o);
      ParseFlags(cfg, init);
      hide ParseFrom, ApplyOpt;
      ApplyOptFields(ParseFrom(cfg, init).cfg, o);
    }
  }

  /* ---------------------------------------------------------------- */
  /* The probes and the gate                                          */
  /* ---------------------------------------------------------------- */

  /**
   * What the system answers: hw.machine, the 10-byte image SIDT stores, the
   * KASLR slide kas_info reports, whether /dev/kmem opens, the contents of
   * /mach_kernel (None: open, fstat or mmap fails), and whether fopen of
   * the output file for writing succeeds.
   */
  datatype Host = Host(machine: string, idtr: seq<uint8>, slide: uint64, kmemOpens: bool,
                       kernelImage: Option<seq<uint8>>, canCreate: bool)

  /** `idt_size / sizeof(struct descriptor_idt)`: the limit divided by 16, rounded down. */
  function EntryCount(limit: uint16): (n: uint32)
    ensures 16 * n <= limit < 16 * n + 16
  {
    limit / DESCRIPTOR_SIZE
  }

  /**
   * SIDT stores the size of the table minus one, so a full 256-slot table
   * gives 255 entries, one fewer than the 256 slots compare_idt walks.
   */
  lemma FullTableEntries()
    ensures EntryCount(16 * IdtCompare.COMPARE_SLOTS - 1) == IdtCompare.COMPARE_SLOTS - 1
  {
    assert EntryCount(4095) == 255;
  }

  /** The configuration once the probes have answered, for a 64-bit kernel. */
  function Probed(cfg: Config, host: Host): (c: Config)
    requires |host.idtr| == IDTR_SIZE
    ensures c.idtEntries == EntryCount(c.idtSize)
  {
    var limit := IdtrLimit(host.idtr);
    cfg.(kernelType := X64, idtAddr := IdtrBase(host.idtr, X64), idtSize := limit,
         idtEntries := EntryCount(limit), kaslrSlide := host.slide)
  }

  /**
   * The symbol list after `if (cfg.resolve == 1) retrieve_kernel_symbols(&cfg)`;
   * None where the parse would read outside the image.
   */
  function WithSymbols(cfg: Config, image: Option<seq<uint8>>): (r: Option<Config>)
    ensures !cfg.resolve ==> r == Some(cfg)
    ensures r.Some? ==> r.value.(symbols := cfg.symbols) == cfg
    ensures r.Some? && r.value.symbols != cfg.symbols ==> cfg.resolve && image.Some?
  {
    if !cfg.resolve || image.None? then Some(cfg)
    else match Symbols.KernelSymbols(image.value)
      case Loaded(list) => Some(cfg.(symbols := list))
      case NotMachO64 => Some(cfg)
      case Malformed => None
  }

  /* ---------------------------------------------------------------- */
  /* The table operations                                             */
  /* ---------------------------------------------------------------- */

  /** The operations main runs; -C and -R both run compare_idt. */
  datatype Op = ShowOp | CreateOp | ReadOp | CompareOp

  /** The position of an operation in the fixed order show, create, read, compare. */
  function Rank(op: Op): nat
  {
    match op
    case ShowOp => 0
    case CreateOp => 1
    case ReadOp => 2
    case CompareOp => 3
  }

  function Stage(flag: bool, op: Op): seq<Op>
  {
    if flag then [op] else []
  }

  /** The flag-guarded calls at the end of main, in order. */
  function Plan(cfg: Config): seq<Op>
  {
    Stage(cfg.interrupt >= 0 || cfg.showAllDescriptors, ShowOp) + Stage(cfg.createFileArchive, CreateOp) +
    Stage(cfg.readFileArchive, ReadOp) + Stage(cfg.compareIdt, CompareOp) + Stage(cfg.restoreIdt, CompareOp)
  }

  /** The operations of p run in the fixed order. */
  predicate InOrder(p: seq<Op>)
  {
    forall i, j :: 0 <= i < j < |p| ==> Rank(p[i]) <= Rank(p[j])
  }

  /** Two runs in order, the first of ranks up to r and the second from r on, are in order together. */
  lemma InOrderAppend(a: seq<Op>, b: seq<Op>, r: nat)
    requires InOrder(a) && InOrder(b)
    requires forall x :: x in a ==> Rank(x) <= r
    requires forall y :: y in b ==> r <= Rank(y)
    ensures InOrder(a + b)
  {
    forall i, j | 0 <= i < j < |a + b|
      ensures Rank((a + b)[i]) <= Rank((a + b)[j])
    {
      if i < |a| && |a| <= j {
        assert (a + b)[i] in a && (a + b)[j] in b;
      } else if |a| <= i {
        assert (a + b)[i] == b[i - |a|] && (a + b)[j] == b[j - |a|];
      }
    }
  }

  /** A stage holds its operation once when its flag is set, and nothing else. */
  lemma StageHolds(flag: bool, op: Op)
    ensures forall x :: x in Stage(flag, op) <==> flag && x == op
    ensures forall x :: multiset(Stage(flag, op))[x] == if flag && x == op then 1 else 0
  {
  }

  /** Each operation runs behind its own flag; show whenever interrupt >= 0 or -A. */
  lemma PlanRuns(cfg: Config)
    ensures var p := Plan(cfg);
      && (ShowOp in p <==> cfg.interrupt >= 0 || cfg.showAllDescriptors)
      && (CreateOp in p <==> cfg.createFileArchive)
      && (ReadOp in p <==> cfg.readFileArchive)
      && (CompareOp in p <==> cfg.compareIdt || cfg.restoreIdt)
  {
    hide Stage;
    StageHolds(cfg.interrupt >= 0 || cfg.showAllDescriptors, ShowOp);
    StageHolds(cfg.createFileArchive, CreateOp);
    StageHolds(cfg.readFileArchive, ReadOp);
    StageHolds(cfg.compareIdt, CompareOp);
    StageHolds(cfg.restoreIdt, CompareOp);
  }

  /** compare_idt runs once for -C and once more for -R. */
  lemma PlanCompares(cfg: Config)
    ensures multiset(Plan(cfg))[CompareOp] == (if cfg.compareIdt then 1 else 0) + (if cfg.restoreIdt then 1 else 0)
  {
    var a, b, c := Stage(cfg.interrupt >= 0 || cfg.showAllDescriptors, ShowOp), Stage(cfg.createFileArchive, CreateOp), Stage(cfg.readFileArchive, ReadOp);
    var d, e := Stage(cfg.compareIdt, CompareOp), Stage(cfg.restoreIdt, CompareOp);
    hide Stage;
    assert multiset(Plan(cfg)) == multiset(a) + multiset(b) + multiset(c) + multiset(d) + multiset(e);
    StageHolds(cfg.interrupt >= 0 || cfg.showAllDescriptors, ShowOp);
    StageHolds(cfg.createFileArchive, CreateOp);
    StageHolds(cfg.readFileArchive, ReadOp);
    StageHolds(cfg.compareIdt, CompareOp);
    StageHolds(cfg.restoreIdt, CompareOp);
  }

  /** The operations always run in the order show, create, read, compare. */
  lemma PlanInOrder(cfg: Config)
    ensures InOrder(Plan(cfg))
  {
    var a, b, c := Stage(cfg.interrupt >= 0 || cfg.showAllDescriptors, ShowOp), Stage(cfg.createFileArchive, CreateOp), Stage(cfg.readFileArchive, ReadOp);
    var d, e := Stage(cfg.compareIdt, CompareOp), Stage(cfg.restoreIdt, CompareOp);
    InOrderAppend(a, b, 1);
    InOrderAppend(a + b, c, 2);
    InOrderAppend(a + b + c, d, 3);
    InOrderAppend(a + b + c + d, e, 3);
  }

  /** One line of output per operation that ran: its rows, its entries, its messages. */
  datatype Event = Shown(rows: seq<Idt.Row>) | Created | Listed(entries: seq<Idt.Entry>) | Compared(messages: seq<IdtCompare.Message>)

  function KindOf(e: Event): Op
  {
    match e
    case Shown(_) => ShowOp
    case Created => CreateOp
    case Listed(_) => ReadOp
    case Compared(_) => CompareOp
  }

  /** Kernel memory, the files, the output so far, and whether a walk has ended the process. */
  datatype State = State(mem: KM.View, files: map<string, seq<Image>>, log: seq<Event>, stopped: bool)

  /** What fopen(cfg->in_filename, "r") finds. */
  function InputArchive(cfg: Config, files: map<string, seq<Image>>): Option<seq<Image>>
  {
    if cfg.inFilename in files then Some(files[cfg.inFilename]) else None
  }

  /** One flag-guarded call; after an exit(-1) nothing more runs. */
  function Perform(cfg: Config, canCreate: bool, op: Op, s: State): (t: State)
    ensures s.stopped ==> t == s
    ensures !s.stopped ==> |t.log| == |s.log| + 1 && t.log[..|s.log|] == s.log && KindOf(t.log[|s.log|]) == op
    ensures op != CompareOp ==> t.mem == s.mem
  {
    if s.stopped then s
    else match op
      case ShowOp =>
        var r := Idt.ShowReport(cfg, s.mem);
        State(s.mem, s.files, s.log + [Shown(r.lines)], r.exited)
      case CreateOp =>
        var c := Idt.ArchiveOf(cfg, s.mem, canCreate);
        State(s.mem, if c.file.Some? then s.files[cfg.outFilename := c.file.value] else s.files, s.log + [Created], c.exited)
      case ReadOp =>
        var r := Idt.ArchiveListing(cfg, InputArchive(cfg, s.files));
        State(s.mem, s.files, s.log + [Listed(r.lines)], r.exited)
      case CompareOp =>
        var o := IdtCompare.CompareOutcome(cfg, InputArchive(cfg, s.files), s.mem);
        State(o.mem, s.files, s.log + [Compared(o.messages)], o.exited)
  }

  /** The calls of ops, in order, from s. */
  function PerformAll(cfg: Config, canCreate: bool, ops: seq<Op>, s: State): State
  {
    if |ops| == 0 then s
    else Perform(cfg, canCreate, ops[|ops| - 1], PerformAll(cfg, canCreate, ops[..|ops| - 1], s))
  }

  /** A flag-guarded call adds one operation to those already run, or none. */
  lemma PerformStage(cfg: Config, canCreate: bool, done: seq<Op>, flag: bool, op: Op, s: State)
    ensures PerformAll(cfg, canCreate, done + Stage(flag, op), s) ==
      if flag then Perform(cfg, canCreate, op, PerformAll(cfg, canCreate, done, s)) else PerformAll(cfg, canCreate, done, s)
  {
    if flag {
      assert (done + [op])[..|done|] == done;
    } else {
      assert done + [] == done;
    }
  }

  /**
   * The output is one event per operation run, in the order of ops; all of
   * them run unless one ends the process, which is then the last to print.
   */
  lemma {:induction false} PerformLog(cfg: Config, canCreate: bool, ops: seq<Op>, s: State)
    requires !s.stopped && s.log == []
    ensures var t := PerformAll(cfg, canCreate, ops, s);
      && |t.log| <= |ops|
      && (forall i :: 0 <= i < |t.log| ==> KindOf(t.log[i]) == ops[i])
      && (!t.stopped ==> |t.log| == |ops|)
  {
    if |ops| > 0 {
      var init := ops[..|ops| - 1];
      PerformLog(cfg, canCreate, init, s);
      var t0 := PerformAll(cfg, canCreate, init, s);
      if !t0.stopped {
        var t := PerformAll(cfg, canCreate, ops, s);
        forall i | 0 <= i < |t.log|
          ensures KindOf(t.log[i]) == ops[i]
        {
          if i < |t0.log| {
            assert t.log[i] == t0.log[i];
          }
        }
      }
    }
  }

  /** Without -R no operation writes kernel memory. */
  lemma {:induction false} ReportModeRunKeepsMemory(cfg: Config, canCreate: bool, ops: seq<Op>, s: State)
    requires !cfg.restoreIdt
    ensures PerformAll(cfg, canCreate, ops, s).mem == s.mem
  {
    if |ops| > 0 {
      var init := ops[..|ops| - 1];
      ReportModeRunKeepsMemory(cfg, canCreate, init, s);
      var t := PerformAll(cfg, canCreate, init, s);
      if !t.stopped && ops[|ops| - 1] == CompareOp {
        IdtCompare.ReportModeOutcomeKeepsMemory(cfg, InputArchive(cfg, t.files), t.mem);
      }
    }
  }

  /** One call writes a file only when it is create_idt_archive and fopen succeeds, and then only the output file. */
  lemma PerformWritesOnlyOutput(cfg: Config, canCreate: bool, op: Op, s: State)
    ensures var t := Perform(cfg, canCreate, op, s);
      && t.files.Keys <= s.files.Keys + {cfg.outFilename}
      && (forall f :: f in s.files && f != cfg.outFilename ==> f in t.files && t.files[f] == s.files[f])
      && (t.files != s.files ==> op == CreateOp && canCreate)
  {
  }

  /** Only create_idt_archive writes a file, and only the output file. */
  lemma {:induction false} RunWritesOnlyOutput(cfg: Config, canCreate: bool, ops: seq<Op>, s: State)
    ensures var t := PerformAll(cfg, canCreate, ops, s);
      && t.files.Keys <= s.files.Keys + {cfg.outFilename}
      && (forall f :: f in s.files && f != cfg.outFilename ==> f in t.files && t.files[f] == s.files[f])
      && (t.files != s.files ==> CreateOp in ops && canCreate)
  {
    if |ops| > 0 {
      var init := ops[..|ops| - 1];
      RunWritesOnlyOutput(cfg, canCreate, init, s);
      var t0 := PerformAll(cfg, canCreate, init, s);
      hide Perform;
      PerformWritesOnlyOutput(cfg, canCreate, ops[|ops| - 1], t0);
      if t0.files != s.files {
        assert CreateOp in init;
      }
    }
  }

  /**
   * With -C and -R, compare_idt runs twice in restore mode; over a table the
   * device serves and an archive that opens, the second run finds nothing
   * left to write and kernel memory stays as the first run left it.
   */
  lemma CompareTwiceRestoresOnce(cfg: Config, canCreate: bool, s: State)
    requires cfg.restoreIdt && !s.stopped && InputArchive(cfg, s.files).Some?
    requires Idt.TableServed(s.mem, cfg.idtAddr, IdtCompare.COMPARE_SLOTS)
    ensures var once := Perform(cfg, canCreate, CompareOp, s);
      var twice := Perform(cfg, canCreate, CompareOp, once);
      !once.stopped && !twice.stopped && twice.mem == once.mem
  {
    var archive := InputArchive(cfg, s.files).value;
    IdtCompare.CompareRestores(cfg, archive, s.mem);
    var once := IdtCompare.CompareOutcome(cfg, Some(archive), s.mem).mem;
    IdtCompare.RestoreTwiceIsOnce(cfg, archive, s.mem);
    IdtCompare.CompareRestores(cfg, archive, once);
  }

  /* ---------------------------------------------------------------- */
  /* main                                                             */
  /* ---------------------------------------------------------------- */

  /**
   * How the process ends: a return from main, a call of exit, or a path the
   * C program leaves undefined (the symbol load reading outside the image).
   */
  datatype Exit = Returned(code: int) | Exited(code: int) | Undefined

  /** The end of a run: how it ends, what it printed, the files and kernel memory. */
  datatype Final = Final(exit: Exit, log: seq<Event>, files: map<string, seq<Image>>, mem: KM.View)

  /** The configuration that main hands to the table operations, if it gets that far. */
  function Configured(argc: nat, opts: seq<Opt>, host: Host): Option<Config>
    requires |host.idtr| == IDTR_SIZE
  {
    if argc < 2 || !ParseFrom(ZERO_CONFIG, opts).Proceed? then None
    else if KernelProbe.KernelType(host.machine) != X64 || !host.kmemOpens then None
    else WithSymbols(Probed(ParseFrom(ZERO_CONFIG, opts).cfg, host), host.kernelImage)
  }

  /** How main ends when it never reaches the table operations. */
  function EarlyExit(argc: nat, opts: seq<Opt>, host: Host): Exit
  {
    if argc < 2 then Exited(1)
    else match ParseFrom(ZERO_CONFIG, opts)
      case Usage => Exited(1)
      case PathTooLong => Returned(-1)
      case Proceed(_) => if KernelProbe.KernelType(host.machine) != X64 || !host.kmemOpens then Returned(-1) else Undefined
  }

  /**
   * main: argc counts the program and its arguments, opts are the options
   * getopt returns from them. usage() ends the process with exit(1).
   */
  function MainOutcome(argc: nat, opts: seq<Opt>, host: Host, m: KM.View, files: map<string, seq<Image>>): Final
    requires |host.idtr| == IDTR_SIZE
  {
    match Configured(argc, opts, host)
    case None => Final(EarlyExit(argc, opts, host), [], files, m)
    case Some(c) =>
      var t := PerformAll(c, host.canCreate, Plan(c), State(m, files, [], false));
      Final(if t.stopped then Exited(-1) else Returned(0), t.log, t.files, t.mem)
  }

  /** The probes and the symbol load change no option: the plan is the one the options give. */
  lemma ConfiguredKeepsPlan(argc: nat, opts: seq<Opt>, host: Host)
    requires |host.idtr| == IDTR_SIZE && Configured(argc, opts, host).Some?
    ensures ParseFrom(ZERO_CONFIG, opts).Proceed?
    ensures Plan(Configured(argc, opts, host).value) == Plan(ParseFrom(ZERO_CONFIG, opts).cfg)
  {
  }

  /**
   * How main ends: exit(1) exactly for a missing argument or -h; return -1
   * for a path too long, a kernel that is not x86_64 or /dev/kmem that does
   * not open; otherwise exit(-1) when a walk gives up and return 0 after
   * one event per planned operation, in the order of the plan.
   */
  lemma MainExits(argc: nat, opts: seq<Opt>, host: Host, m: KM.View, files: map<string, seq<Image>>)
    requires |host.idtr| == IDTR_SIZE
    ensures var f := MainOutcome(argc, opts, host, m, files);
      var p := ParseFrom(ZERO_CONFIG, opts);
      && (f.exit == Exited(1) <==> argc < 2 || p.Usage?)
      && (f.exit == Returned(-1) <==>
            argc >= 2 && (p.PathTooLong? || (p.Proceed? && (host.machine != "x86_64" || !host.kmemOpens))))
      && (f.exit == Undefined <==>
            (argc >= 2 && p.Proceed? && host.machine == "x86_64" && host.kmemOpens && Configured(argc, opts, host).None?))
      && (Configured(argc, opts, host).Some? <==> f.exit == Exited(-1) || f.exit == Returned(0))
      && (f.exit == Returned(0) ==>
            |f.log| == |Plan(p.cfg)| && forall i :: 0 <= i < |f.log| ==> KindOf(f.log[i]) == Plan(p.cfg)[i])
  {
    var c := Configured(argc, opts, host);
    if c.Some? {
      ConfiguredKeepsPlan(argc, opts, host);
      PerformLog(c.value, host.canCreate, Plan(c.value), State(m, files, [], false));
    }
  }

  /**
   * Kernel memory changes only with -R on an x86_64 kernel whose /dev/kmem
   * opens; files change only with -c when the output file can be created,
   * and then only the output file.
   */
  lemma MainWrites(argc: nat, opts: seq<Opt>, host: Host, m: KM.View, files: map<string, seq<Image>>)
    requires |host.idtr| == IDTR_SIZE
    ensures var f := MainOutcome(argc, opts, host, m, files);
      && (f.mem != m ==> Configured(argc, opts, host).Some? && Restore in opts)
      && (f.files != files ==> Configured(argc, opts, host).Some? && Create in opts && host.canCreate)
      && (Configured(argc, opts, host).Some? ==>
            forall n :: n in files && n != Configured(argc, opts, host).value.outFilename ==>
              n in f.files && f.files[n] == files[n])
  {
    var c := Configured(argc, opts, host);
    if c.Some? {
      var cfg := c.value;
      var s := State(m, files, [], false);
      ParseFlags(ZERO_CONFIG, opts);
      RunWritesOnlyOutput(cfg, host.canCreate, Plan(cfg), s);
      PlanRuns(cfg);
      if !cfg.restoreIdt {
        ReportModeRunKeepsMemory(cfg, host.canCreate, Plan(cfg), s);
      }
    }
  }

  /** Without -a the interrupt stays 0, which passes `interrupt >= 0`: show_idt_info always runs first, even when it prints no row. */
  lemma ShowsByDefault(opts: seq<Opt>)
    requires ParseFrom(ZERO_CONFIG, opts).Proceed?
    requires forall i :: 0 <= i < |opts| ==> !opts[i].Interrupt?
    ensures var p := Plan(ParseFrom(ZERO_CONFIG, opts).cfg); |p| > 0 && p[0] == ShowOp
  {
    LastInterruptWins(ZERO_CONFIG, opts);
  }

  /** One flag-guarded call of main, run on the device. */
  method RunStage(cfg: Config, canCreate: bool, mem: KM.Device, flag: bool, op: Op,
                  log: seq<Event>, files: map<string, seq<Image>>, stopped: bool, ghost done: seq<Op>, ghost s0: State)
    returns (log': seq<Event>, files': map<string, seq<Image>>, stopped': bool)
    requires State(mem.Snapshot(), files, log, stopped) == PerformAll(cfg, canCreate, done, s0)
    modifies mem.data
    ensures State(mem.Snapshot(), files', log', stopped') == PerformAll(cfg, canCreate, done + Stage(flag, op), s0)
  {
    PerformStage(cfg, canCreate, done, flag, op, s0);
    log', files', stopped' := log, files, stopped;
    if !flag || stopped {
      return;
    }
    match op {
      case ShowOp =>
        var rows, exited := Idt.ShowIdtInfo(cfg, mem);
        log', stopped' := log + [Shown(rows)], exited;
      case CreateOp =>
        var file, exited := Idt.CreateIdtArchive(cfg, mem, canCreate);
        if file.Some? {
          files' := files[cfg.outFilename := file.value];
        }
        log', stopped' := log + [Created], exited;
      case ReadOp =>
        var entries, exited := Idt.ReadIdtArchive(cfg, InputArchive(cfg, files));
        log', stopped' := log + [Listed(entries)], exited;
      case CompareOp =>
        var messages, exited := IdtCompare.CompareIdt(cfg, mem, InputArchive(cfg, files));
        log', stopped' := log + [Compared(messages)], exited;
    }
  }

  /** The first three flag-guarded calls at the end of main: show, create, read. */
  method DispatchTables(cfg: Config, canCreate: bool, mem: KM.Device, files: map<string, seq<Image>>)
    returns (log: seq<Event>, files': map<string, seq<Image>>, stopped: bool)
    modifies mem.data
    ensures State(mem.Snapshot(), files', log, stopped) ==
      PerformAll(cfg, canCreate, Stage(cfg.interrupt >= 0 || cfg.showAllDescriptors, ShowOp) + Stage(cfg.createFileArchive, CreateOp)
        + Stage(cfg.readFileArchive, ReadOp), State(old(mem.Snapshot()), files, [], false))
  {
    ghost var s0 := State(mem.Snapshot(), files, [], false);
    log, files', stopped := [], files, false;
    assert PerformAll(cfg, canCreate, [], s0) == s0;
    hide PerformAll, Perform, Stage;
    ghost var done := Stage(cfg.interrupt >= 0 || cfg.showAllDescriptors, ShowOp);
    assert [] + done == done;
    log, files', stopped := RunStage(cfg, canCreate, mem, cfg.interrupt >= 0 || cfg.showAllDescriptors, ShowOp, log, files', stopped, [], s0);
    log, files', stopped := RunStage(cfg, canCreate, mem, cfg.createFileArchive, CreateOp, log, files', stopped, done, s0);
    done := done + Stage(cfg.createFileArchive, CreateOp);
    log, files', stopped := RunStage(cfg, canCreate, mem, cfg.readFileArchive, ReadOp, log, files', stopped, done, s0);
  }

  /** The five flag-guarded calls at the end of main. */
  method Dispatch(cfg: Config, canCreate: bool, mem: KM.Device, files: map<string, seq<Image>>)
    returns (log: seq<Event>, files': map<string, seq<Image>>, stopped: bool)
    modifies mem.data
    ensures State(mem.Snapshot(), files', log, stopped) == PerformAll(cfg, canCreate, Plan(cfg), State(old(mem.Snapshot()), files, [], false))
  {
    ghost var s0 := State(mem.Snapshot(), files, [], false);
    hide PerformAll, Perform, Stage;
    log, files', stopped := DispatchTables(cfg, canCreate, mem, files);
    ghost var done := Stage(cfg.interrupt >= 0 || cfg.showAllDescriptors, ShowOp) + Stage(cfg.createFileArchive, CreateOp)
      + Stage(cfg.readFileArchive, ReadOp);
    log, files', stopped := RunStage(cfg, canCreate, mem, cfg.compareIdt, CompareOp, log, files', stopped, done, s0);
    done := done + Stage(cfg.compareIdt, CompareOp);
    log, files', stopped := RunStage(cfg, canCreate, mem, cfg.restoreIdt, CompareOp, log, files', stopped, done, s0);
  }

  /** The start of main: the option loop, the probes and the gate, the symbol load. */
  method Configure(argc: nat, opts: seq<Opt>, host: Host) returns (c: Option<Config>, early: Exit)
    requires |host.idtr| == IDTR_SIZE
    ensures c == Configured(argc, opts, host)
    ensures c.None? ==> early == EarlyExit(argc, opts, host)
  {
    hide ParseFrom, Symbols.KernelSymbols;
    if argc < 2 {
      return None, Exited(1);
    }
    var parsed := ParseOptions(opts);
    if parsed.Usage? {
      return None, Exited(1);
    }
    if parsed.PathTooLong? {
      return None, Returned(-1);
    }
    var cfg := parsed.cfg.(kernelType := KernelProbe.KernelType(host.machine));
    if cfg.kernelType == -1 || cfg.kernelType == X86 {
      return None, Returned(-1);
    }
    cfg := cfg.(idtAddr := IdtrBase(host.idtr, cfg.kernelType), idtSize := IdtrLimit(host.idtr));
    cfg := cfg.(idtEntries := cfg.idtSize / DESCRIPTOR_SIZE, kaslrSlide := host.slide);
    if !host.kmemOpens {
      return None, Returned(-1);
    }
    early := Undefined;
    if cfg.resolve && host.kernelImage.Some? {
      var load := Symbols.RetrieveKernelSymbols(host.kernelImage.value);
      match load {
        case Loaded(list) => cfg := cfg.(symbols := list);
        case NotMachO64 =>
        case Malformed => return None, Undefined;
      }
    }
    c := Some(cfg);
  }

  /** main, on the device: the start, then the dispatch. */
  method Run(argc: nat, opts: seq<Opt>, host: Host, mem: KM.Device, files: map<string, seq<Image>>)
    returns (exit: Exit, log: seq<Event>, files': map<string, seq<Image>>)
    requires |host.idtr| == IDTR_SIZE
    modifies mem.data
    ensures Final(exit, log, files', mem.Snapshot()) == MainOutcome(argc, opts, host, old(mem.Snapshot()), files)
  {
    var c;
    c, exit := Configure(argc, opts, host);
    if c.None? {
      return exit, [], files;
    }
    var stopped;
    log, files', stopped := Dispatch(c.value, host.canCreate, mem, files);
    exit := if stopped then Exited(-1) else Returned(0);
  }
}
